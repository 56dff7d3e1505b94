/**
 Wildcard traversal: batched literal spans against a segment-by-segment meaning.

 The lookup of literal spans belongs to the upstream parser and is a parameter `at`, assumed
 to treat a concatenation of segments as the composition of their steps, and to answer with
 elements inside the one it was asked about.
 */
module PathTraversal {
  import opened Basics
  import opened Tape
  import opened Json
  import opened PathScanner

  /** A lookup finds an element, finds none there, or fails for another reason. */
  datatype Lookup = Found(index: nat) | Absent | Failed(rc: Status)

  type AtPath = (nat, Bytes) -> Lookup

  type Matches = Result<seq<nat>, Status>

  // ----- What is assumed of the upstream lookup

  function Then(at: AtPath, first: Lookup, rest: Bytes): Lookup {
    if first.Found? then at(first.index, rest) else first
  }

  predicate LiteralRun(segments: seq<Segment>) {
    forall k :: 0 <= k < |segments| ==> !segments[k].wildcard && SegmentOk(segments[k])
  }

  predicate SpanComposes(at: AtPath, i: nat, seg: Segment, more: seq<Segment>) {
    LiteralRun([seg] + more) && more != [] ==> at(i, seg.path + Print(more)) == Then(at, at(i, seg.path), Print(more))
  }

  ghost predicate Composes(at: AtPath) {
    forall i: nat, seg, more :: SpanComposes(at, i, seg, more)
  }

  /** The element at `j` lies inside the element at `i`. */
  predicate Inside(t: Words, i: nat, j: nat) {
    && i <= j && IsValueStart(t, i) && IsValueStart(t, j) && After(t, j) <= After(t, i)
    && j in Nodes(t, i, After(t, i))
  }

  ghost predicate FindsInside(at: AtPath, t: Words) {
    forall i: nat, span :: IsValueStart(t, i) && at(i, span).Found? ==> Inside(t, i, at(i, span).index)
  }

  // ----- Children of an element

  /** Positions of the values of the fields in [i, k). */
  function ValueStarts(t: Words, i: nat, k: nat): seq<nat>
    requires WfFields(t, i, k)
    decreases k - i
  {
    if i == k then [] else [i + 1] + ValueStarts(t, After(t, i + 1), k)
  }

  /** What a bare wildcard selects; a scalar has no children and is dropped. */
  function Children(t: Words, i: nat): seq<nat>
    requires IsValueStart(t, i)
  {
    match t[i]
    case StartArray(after) => ItemStarts(t, i + 1, after - 1)
    case StartObject(after) => ValueStarts(t, i + 1, after - 1)
    case Leaf(_, _) => []
  }

  // ----- Subtrees in document order

  /** The elements of `s` are subtrees of [lo, hi), one after the other without overlap. */
  predicate InOrder(t: Words, s: seq<nat>, lo: nat, hi: nat) {
    if s == [] then lo <= hi
    else lo <= s[0] && IsValueStart(t, s[0]) && After(t, s[0]) <= hi && InOrder(t, s[1..], After(t, s[0]), hi)
  }

  lemma {:induction false} InOrderJoins(t: Words, a: seq<nat>, b: seq<nat>, lo: nat, mid: nat, hi: nat)
    requires InOrder(t, a, lo, mid) && InOrder(t, b, mid, hi)
    ensures InOrder(t, a + b, lo, hi)
    decreases |a|
  {
    if a == [] {
      assert a + b == b;
      InOrderWidens(t, b, mid, lo, hi, hi);
    } else {
      InOrderJoins(t, a[1..], b, After(t, a[0]), mid, hi);
      InOrderBounded(t, b, mid, hi);
      assert (a + b)[1..] == a[1..] + b;
    }
  }

  lemma {:induction false} InOrderBounded(t: Words, s: seq<nat>, lo: nat, hi: nat)
    requires InOrder(t, s, lo, hi)
    ensures lo <= hi
    decreases |s|
  {
    if s != [] {
      InOrderBounded(t, s[1..], After(t, s[0]), hi);
    }
  }

  lemma {:induction false} InOrderWidens(t: Words, s: seq<nat>, lo: nat, lo': nat, hi: nat, hi': nat)
    requires InOrder(t, s, lo, hi) && lo' <= lo && hi <= hi'
    ensures InOrder(t, s, lo', hi')
    decreases |s|
  {
    if s != [] {
      InOrderWidens(t, s[1..], After(t, s[0]), After(t, s[0]), hi, hi');
    }
  }

  /** Matches in order are strictly increasing; even their subtrees are disjoint. */
  lemma {:induction false} InOrderIsIncreasing(t: Words, s: seq<nat>, lo: nat, hi: nat)
    requires InOrder(t, s, lo, hi)
    ensures forall k :: 0 <= k < |s| ==> lo <= s[k] && IsValueStart(t, s[k]) && After(t, s[k]) <= hi
    ensures forall j, k :: 0 <= j < k < |s| ==> s[j] < s[k] && s[j] < |t| && After(t, s[j]) <= s[k]
    decreases |s|
  {
    if s != [] {
      var rest := s[1..];
      InOrderIsIncreasing(t, rest, After(t, s[0]), hi);
      assert forall k :: 0 < k < |s| ==> s[k] == rest[k - 1];
    }
  }

  lemma {:induction false} ItemStartsInOrder(t: Words, i: nat, k: nat)
    requires WfItems(t, i, k)
    ensures InOrder(t, ItemStarts(t, i, k), i, k)
    decreases k - i
  {
    if i != k {
      ItemStartsInOrder(t, After(t, i), k);
      assert ItemStarts(t, i, k)[1..] == ItemStarts(t, After(t, i), k);
    }
  }

  lemma ValueStartsCons(t: Words, i: nat, v: nat, j: nat, k: nat)
    requires WfFields(t, i, k) && i < k && v == i + 1 && j == After(t, v)
    ensures IsValueStart(t, v) && v < j <= k && WfFields(t, j, k)
    ensures ValueStarts(t, i, k) == [v] + ValueStarts(t, j, k)
  {
  }

  lemma {:induction false} ValueStartsInOrder(t: Words, i: nat, k: nat)
    requires WfFields(t, i, k)
    ensures InOrder(t, ValueStarts(t, i, k), i, k)
    decreases k - i
  {
    if i != k {
      var v := i + 1;
      var j := After(t, v);
      ValueStartsCons(t, i, v, j, k);
      ValueStartsInOrder(t, j, k);
      InOrderCons(t, v, ValueStarts(t, j, k), i, k);
    }
  }

  lemma InOrderCons(t: Words, v: nat, rest: seq<nat>, lo: nat, hi: nat)
    requires lo <= v && IsValueStart(t, v) && After(t, v) <= hi && InOrder(t, rest, After(t, v), hi)
    ensures InOrder(t, [v] + rest, lo, hi)
  {
    assert ([v] + rest)[1..] == rest;
  }

  lemma ChildrenInOrder(t: Words, i: nat)
    requires IsValueStart(t, i)
    ensures InOrder(t, Children(t, i), i, After(t, i))
  {
    match t[i]
    case StartArray(after) =>
      ItemStartsInOrder(t, i + 1, after - 1);
      InOrderWidens(t, Children(t, i), i + 1, i, after - 1, after);
    case StartObject(after) =>
      ValueStartsInOrder(t, i + 1, after - 1);
      InOrderWidens(t, Children(t, i), i + 1, i, after - 1, after);
    case Leaf(_, _) =>
  }

  // ----- Children against the tree that the tape spells

  /** The k-th listed element reads back as the k-th tree. */
  predicate ReadAs(t: Words, s: seq<nat>, items: seq<Tree>) {
    && |s| == |items|
    && forall k :: 0 <= k < |s| ==> IsValueStart(t, s[k]) && Read(t, s[k], After(t, s[k])) == items[k]
  }

  /** The value of a field: it reads back as the field's value and stands behind the field's key. */
  predicate ReadsAsField(t: Words, v: nat, f: Field) {
    && 0 < v && IsValueStart(t, v) && Read(t, v, After(t, v)) == f.value
    && IsKeyWord(t[v - 1]) && KeyAt(t, v - 1) == f.key
  }

  predicate ReadAsFields(t: Words, s: seq<nat>, fields: seq<Field>) {
    |s| == |fields| && forall k :: 0 <= k < |s| ==> ReadsAsField(t, s[k], fields[k])
  }

  /** `s` lists every child of the element at `i`, each once and in order, and nothing else. */
  predicate EveryChild(t: Words, i: nat, s: seq<nat>)
    requires IsValueStart(t, i)
  {
    match Read(t, i, After(t, i))
    case Array(items) => ReadAs(t, s, items)
    case Object(fields) => ReadAsFields(t, s, fields)
    case Atom(_) => s == []
  }

  lemma ReadAsCons(t: Words, i: nat, rest: seq<nat>, item: Tree, items: seq<Tree>)
    requires IsValueStart(t, i) && Read(t, i, After(t, i)) == item && ReadAs(t, rest, items)
    ensures ReadAs(t, [i] + rest, [item] + items)
  {
  }

  lemma ReadAsFieldsCons(t: Words, v: nat, rest: seq<nat>, f: Field, fields: seq<Field>)
    requires ReadsAsField(t, v, f) && ReadAsFields(t, rest, fields)
    ensures ReadAsFields(t, [v] + rest, [f] + fields)
  {
  }

  lemma {:induction false} ItemStartsRead(t: Words, i: nat, k: nat)
    requires WfItems(t, i, k)
    ensures ReadAs(t, ItemStarts(t, i, k), ReadItems(t, i, k))
    decreases k - i
  {
    if i != k {
      var j := After(t, i);
      ItemStartsRead(t, j, k);
      ReadAsCons(t, i, ItemStarts(t, j, k), Read(t, i, j), ReadItems(t, j, k));
    }
  }

  lemma {:induction false} ValueStartsRead(t: Words, i: nat, k: nat)
    requires WfFields(t, i, k)
    ensures ReadAsFields(t, ValueStarts(t, i, k), ReadFields(t, i, k))
    decreases k - i
  {
    if i != k {
      var v := i + 1;
      var j := After(t, v);
      ValueStartsCons(t, i, v, j, k);
      ValueStartsRead(t, j, k);
      ReadAsFieldsCons(t, v, ValueStarts(t, j, k), Field(KeyAt(t, i), Read(t, v, j)), ReadFields(t, j, k));
    }
  }

  lemma ArrayIsWhole(t: Words, i: nat, lo: nat, hi: nat)
    requires IsValueStart(t, i) && t[i].StartArray? && lo == i + 1 && hi == After(t, i) - 1
    ensures WfItems(t, lo, hi)
  {
  }

  lemma ArrayChildren(t: Words, i: nat, lo: nat, hi: nat)
    requires IsValueStart(t, i) && t[i].StartArray? && lo == i + 1 && hi == After(t, i) - 1
    requires WfItems(t, lo, hi)
    ensures Children(t, i) == ItemStarts(t, lo, hi)
  {
  }

  lemma ArrayReads(t: Words, i: nat, lo: nat, hi: nat)
    requires IsValueStart(t, i) && t[i].StartArray? && lo == i + 1 && hi == After(t, i) - 1
    requires WfItems(t, lo, hi)
    ensures Read(t, i, After(t, i)) == Array(ReadItems(t, lo, hi))
  {
  }

  lemma ObjectIsWhole(t: Words, i: nat, lo: nat, hi: nat)
    requires IsValueStart(t, i) && t[i].StartObject? && lo == i + 1 && hi == After(t, i) - 1
    ensures WfFields(t, lo, hi)
  {
  }

  lemma ObjectChildren(t: Words, i: nat, lo: nat, hi: nat)
    requires IsValueStart(t, i) && t[i].StartObject? && lo == i + 1 && hi == After(t, i) - 1
    requires WfFields(t, lo, hi)
    ensures Children(t, i) == ValueStarts(t, lo, hi)
  {
  }

  lemma ObjectReads(t: Words, i: nat, lo: nat, hi: nat)
    requires IsValueStart(t, i) && t[i].StartObject? && lo == i + 1 && hi == After(t, i) - 1
    requires WfFields(t, lo, hi)
    ensures Read(t, i, After(t, i)) == Object(ReadFields(t, lo, hi))
  {
  }

  lemma ArrayIsEvery(t: Words, i: nat, lo: nat, hi: nat)
    requires IsValueStart(t, i) && WfItems(t, lo, hi) && Read(t, i, After(t, i)) == Array(ReadItems(t, lo, hi))
    ensures EveryChild(t, i, ItemStarts(t, lo, hi))
  {
    ItemStartsRead(t, lo, hi);
  }

  lemma ObjectIsEvery(t: Words, i: nat, lo: nat, hi: nat)
    requires IsValueStart(t, i) && WfFields(t, lo, hi) && Read(t, i, After(t, i)) == Object(ReadFields(t, lo, hi))
    ensures EveryChild(t, i, ValueStarts(t, lo, hi))
  {
    ValueStartsRead(t, lo, hi);
  }

  lemma ChildrenAreEveryChild(t: Words, i: nat)
    requires IsValueStart(t, i)
    ensures EveryChild(t, i, Children(t, i))
  {
    var lo, hi := i + 1, After(t, i) - 1;
    if t[i].StartArray? {
      ArrayIsWhole(t, i, lo, hi);
      ArrayReads(t, i, lo, hi);
      ArrayChildren(t, i, lo, hi);
      ArrayIsEvery(t, i, lo, hi);
    } else if t[i].StartObject? {
      ObjectIsWhole(t, i, lo, hi);
      ObjectReads(t, i, lo, hi);
      ObjectChildren(t, i, lo, hi);
      ObjectIsEvery(t, i, lo, hi);
    }
  }

  // ----- Segment-by-segment meaning

  predicate AllStarts(t: Words, s: seq<nat>) {
    forall k :: 0 <= k < |s| ==> IsValueStart(t, s[k])
  }

  /** The elements selected, and the statuses of the lookups that failed on the way. */
  datatype Selection = Selection(matches: seq<nat>, errors: set<Status>)

  const NOTHING: Selection := Selection([], {})

  function Join(a: Selection, b: Selection): Selection {
    Selection(a.matches + b.matches, a.errors + b.errors)
  }

  /** What one lookup contributes when no further segment follows it. */
  function Outcome(step: Lookup): Selection {
    match step
    case Found(j) => Selection([j], {})
    case Absent => NOTHING
    case Failed(rc) => Selection([], {rc})
  }

  /** What `segments` select from the element at `i`: one segment at a time, depth first. */
  ghost function Select(t: Words, at: AtPath, i: nat, segments: seq<Segment>): Selection
    requires FindsInside(at, t) && IsValueStart(t, i)
    decreases |segments|, 0
  {
    if segments == [] then Selection([i], {})
    else if segments[0].wildcard then
      ChildrenAreStarts(t, i);
      SelectAll(t, at, Children(t, i), segments[1..])
    else
      var step := at(i, segments[0].path);
      if step.Found? then Select(t, at, step.index, segments[1..]) else Outcome(step)
  }

  ghost function SelectAll(t: Words, at: AtPath, elements: seq<nat>, segments: seq<Segment>): Selection
    requires FindsInside(at, t) && AllStarts(t, elements)
    decreases |segments|, |elements| + 1
  {
    if elements == [] then NOTHING
    else Join(Select(t, at, elements[0], segments), SelectAll(t, at, elements[1..], segments))
  }

  lemma ChildrenAreStarts(t: Words, i: nat)
    requires IsValueStart(t, i)
    ensures AllStarts(t, Children(t, i))
  {
    ChildrenInOrder(t, i);
    InOrderIsIncreasing(t, Children(t, i), i, After(t, i));
  }

  /** One wildcard selects every child of its receiver and fails nowhere. */
  lemma WildcardSelectsEveryChild(t: Words, at: AtPath, i: nat, seg: Segment)
    requires FindsInside(at, t) && IsValueStart(t, i) && seg.wildcard
    ensures var r := Select(t, at, i, [seg]); r.errors == {} && EveryChild(t, i, r.matches)
  {
    ChildrenAreStarts(t, i);
    ChildrenAreEveryChild(t, i);
    SelectAllNothing(t, at, Children(t, i));
    assert [seg][1..] == [];
  }

  /** One literal segment selects what its lookup finds. */
  lemma LiteralSelectsItsLookup(t: Words, at: AtPath, i: nat, seg: Segment)
    requires FindsInside(at, t) && IsValueStart(t, i) && !seg.wildcard
    ensures Select(t, at, i, [seg]) ==
            match at(i, seg.path) {
              case Found(j) => Selection([j], {})
              case Absent => Selection([], {})
              case Failed(rc) => Selection([], {rc})
            }
  {
    assert [seg][1..] == [];
  }

  /** Longer lists of segments apply their tail to whatever their head selects. */
  lemma {:induction false} SelectionComposes(t: Words, at: AtPath, i: nat, a: seq<Segment>, b: seq<Segment>)
    requires FindsInside(at, t) && IsValueStart(t, i)
    ensures var first := Select(t, at, i, a);
            && AllStarts(t, first.matches)
            && var rest := SelectAll(t, at, first.matches, b);
               Select(t, at, i, a + b) == Selection(rest.matches, first.errors + rest.errors)
    decreases |a|, 0
  {
    if a == [] {
      assert a + b == b;
      SelectOne(t, at, i, b);
      assert {} + Select(t, at, i, b).errors == Select(t, at, i, b).errors;
    } else {
      assert (a + b)[0] == a[0] && (a + b)[1..] == a[1..] + b;
      if a[0].wildcard {
        ChildrenAreStarts(t, i);
        SelectionsCompose(t, at, Children(t, i), a[1..], b);
      } else if at(i, a[0].path).Found? {
        SelectionComposes(t, at, at(i, a[0].path).index, a[1..], b);
      }
    }
  }

  lemma {:induction false} SelectionsCompose(t: Words, at: AtPath, elements: seq<nat>, a: seq<Segment>, b: seq<Segment>)
    requires FindsInside(at, t) && AllStarts(t, elements)
    ensures var first := SelectAll(t, at, elements, a);
            && AllStarts(t, first.matches)
            && var rest := SelectAll(t, at, first.matches, b);
               SelectAll(t, at, elements, a + b) == Selection(rest.matches, first.errors + rest.errors)
    decreases |a|, |elements| + 1
  {
    if elements != [] {
      SelectionComposes(t, at, elements[0], a, b);
      SelectionsCompose(t, at, elements[1..], a, b);
      var head, tail := Select(t, at, elements[0], a), SelectAll(t, at, elements[1..], a);
      SelectAllJoins(t, at, head.matches, tail.matches, b);
      var x, y := SelectAll(t, at, head.matches, b), SelectAll(t, at, tail.matches, b);
      assert (head.errors + x.errors) + (tail.errors + y.errors) == (head.errors + tail.errors) + (x.errors + y.errors);
    }
  }

  /** Matches are in document order, without duplicates or nesting, inside the receiver. */
  lemma {:induction false} SelectionInOrder(t: Words, at: AtPath, i: nat, segments: seq<Segment>)
    requires FindsInside(at, t) && IsValueStart(t, i)
    ensures InOrder(t, Select(t, at, i, segments).matches, i, After(t, i))
    decreases |segments|, 0
  {
    if segments != [] {
      if segments[0].wildcard {
        ChildrenInOrder(t, i);
        ChildrenAreStarts(t, i);
        SelectionsInOrder(t, at, Children(t, i), segments[1..], i, After(t, i));
      } else if at(i, segments[0].path).Found? {
        var j := at(i, segments[0].path).index;
        SelectionInOrder(t, at, j, segments[1..]);
        InOrderWidens(t, Select(t, at, j, segments[1..]).matches, j, i, After(t, j), After(t, i));
      }
    }
  }

  lemma {:induction false} SelectionsInOrder(t: Words, at: AtPath, elements: seq<nat>, segments: seq<Segment>,
                                             lo: nat, hi: nat)
    requires FindsInside(at, t) && AllStarts(t, elements) && InOrder(t, elements, lo, hi)
    ensures InOrder(t, SelectAll(t, at, elements, segments).matches, lo, hi)
    decreases |segments|, |elements| + 1
  {
    if elements != [] {
      var i, mid := elements[0], After(t, elements[0]);
      SelectionInOrder(t, at, i, segments);
      SelectionsInOrder(t, at, elements[1..], segments, mid, hi);
      var a, b := Select(t, at, i, segments), SelectAll(t, at, elements[1..], segments);
      InOrderJoins(t, a.matches, b.matches, i, mid, hi);
      InOrderWidens(t, a.matches + b.matches, i, lo, hi, hi);
    }
  }

  ghost predicate AllIn(s: seq<nat>, nodes: set<nat>) {
    forall k :: 0 <= k < |s| ==> s[k] in nodes
  }

  lemma {:induction false} ItemStartsAreNodes(t: Words, i: nat, k: nat)
    requires WfItems(t, i, k)
    ensures AllIn(ItemStarts(t, i, k), ItemNodes(t, i, k))
    decreases k - i
  {
    if i != k {
      var j := After(t, i);
      ItemStartsAreNodes(t, j, k);
      assert i in Nodes(t, i, j);
      assert ItemStarts(t, i, k) == [i] + ItemStarts(t, j, k);
    }
  }

  lemma {:induction false} ValueStartsAreNodes(t: Words, i: nat, k: nat)
    requires WfFields(t, i, k)
    ensures AllIn(ValueStarts(t, i, k), FieldNodes(t, i, k))
    decreases k - i
  {
    if i != k {
      var v := i + 1;
      var j := After(t, v);
      ValueStartsCons(t, i, v, j, k);
      ValueStartsAreNodes(t, j, k);
      assert v in Nodes(t, v, j);
    }
  }

  lemma ChildrenAreNodes(t: Words, i: nat)
    requires IsValueStart(t, i)
    ensures AllIn(Children(t, i), Nodes(t, i, After(t, i)))
  {
    match t[i]
    case StartArray(after) => ItemStartsAreNodes(t, i + 1, after - 1);
    case StartObject(after) => ValueStartsAreNodes(t, i + 1, after - 1);
    case Leaf(_, _) =>
  }

  /** Below a node of a subtree lie only nodes of that subtree. */
  lemma NodesNest(t: Words, i: nat, j: nat, s: seq<nat>)
    requires IsValueStart(t, i) && j in Nodes(t, i, After(t, i))
    ensures IsValueStart(t, j)
    ensures AllIn(s, Nodes(t, j, After(t, j))) ==> AllIn(s, Nodes(t, i, After(t, i)))
  {
    NodesAreStarts(t, i, After(t, i));
    assert NodeWithin(t, j, i, After(t, i), Nodes(t, i, After(t, i)));
  }

  /** Every match is the receiver or an element below it. */
  lemma {:induction false} SelectionIsBelow(t: Words, at: AtPath, i: nat, segments: seq<Segment>)
    requires FindsInside(at, t) && IsValueStart(t, i)
    ensures AllIn(Select(t, at, i, segments).matches, Nodes(t, i, After(t, i)))
    decreases |segments|, 0
  {
    if segments == [] {
      assert i in Nodes(t, i, After(t, i));
    } else if segments[0].wildcard {
      ChildrenAreStarts(t, i);
      ChildrenAreNodes(t, i);
      SelectionsAreBelow(t, at, i, Children(t, i), segments[1..]);
    } else if at(i, segments[0].path).Found? {
      var j := at(i, segments[0].path).index;
      SelectionIsBelow(t, at, j, segments[1..]);
      NodesNest(t, i, j, Select(t, at, j, segments[1..]).matches);
    }
  }

  lemma {:induction false} SelectionsAreBelow(t: Words, at: AtPath, i: nat, elements: seq<nat>, segments: seq<Segment>)
    requires FindsInside(at, t) && IsValueStart(t, i) && AllStarts(t, elements)
    requires AllIn(elements, Nodes(t, i, After(t, i)))
    ensures AllIn(SelectAll(t, at, elements, segments).matches, Nodes(t, i, After(t, i)))
    decreases |segments|, |elements| + 1
  {
    if elements != [] {
      var j := elements[0];
      SelectionIsBelow(t, at, j, segments);
      SelectionsAreBelow(t, at, i, elements[1..], segments);
      NodesNest(t, i, j, Select(t, at, j, segments).matches);
    }
  }

  // ----- Batched steps keep the meaning

  /** A reply to a selection: its matches if no lookup of it fails, else the status of one that does. */
  predicate Replies(selection: Selection, r: Matches) {
    if selection.errors == {} then r == Ok(selection.matches) else r.Err? && r.error in selection.errors
  }

  lemma JoinAssociates(a: Selection, b: Selection, c: Selection)
    ensures Join(Join(a, b), c) == Join(a, Join(b, c))
  {
    assert (a.matches + b.matches) + c.matches == a.matches + (b.matches + c.matches);
    assert (a.errors + b.errors) + c.errors == a.errors + (b.errors + c.errors);
  }

  lemma JoinNothing(a: Selection)
    ensures Join(NOTHING, a) == a && Join(a, NOTHING) == a
  {
    assert [] + a.matches == a.matches && a.matches + [] == a.matches;
    assert {} + a.errors == a.errors && a.errors + {} == a.errors;
  }

  lemma {:induction false} SelectAllJoins(t: Words, at: AtPath, a: seq<nat>, b: seq<nat>, segments: seq<Segment>)
    requires FindsInside(at, t) && AllStarts(t, a) && AllStarts(t, b)
    ensures AllStarts(t, a + b)
    ensures SelectAll(t, at, a + b, segments) ==
            Join(SelectAll(t, at, a, segments), SelectAll(t, at, b, segments))
    decreases |a|
  {
    var rest := SelectAll(t, at, b, segments);
    if a == [] {
      assert a + b == b;
      JoinNothing(rest);
    } else {
      SelectAllJoins(t, at, a[1..], b, segments);
      assert (a + b)[1..] == a[1..] + b;
      JoinAssociates(Select(t, at, a[0], segments), SelectAll(t, at, a[1..], segments), rest);
    }
  }

  lemma SelectOne(t: Words, at: AtPath, i: nat, segments: seq<Segment>)
    requires FindsInside(at, t) && IsValueStart(t, i)
    ensures SelectAll(t, at, [i], segments) == Select(t, at, i, segments)
  {
    JoinNothing(Select(t, at, i, segments));
  }

  /** A whole literal span, looked up at once, means what its segments mean one by one. */
  lemma {:induction false} SpanMeansItsSegments(t: Words, at: AtPath, i: nat, span: seq<Segment>, rest: seq<Segment>)
    requires FindsInside(at, t) && Composes(at) && IsValueStart(t, i) && LiteralRun(span) && span != []
    ensures Select(t, at, i, span + rest) ==
            var step := at(i, Print(span));
            if step.Found? then Select(t, at, step.index, rest) else Outcome(step)
    decreases |span|
  {
    var seg, more := span[0], span[1..];
    assert (span + rest)[0] == seg && (span + rest)[1..] == more + rest;
    assert span == [seg] + more;
    if more == [] {
      assert more + rest == rest && seg.path + [] == seg.path;
    } else {
      assert SpanComposes(at, i, seg, more);
      if at(i, seg.path).Found? {
        SpanMeansItsSegments(t, at, at(i, seg.path).index, more, rest);
      }
    }
  }

  // ----- The traversal

  lemma PrintsNothing(span: seq<Segment>)
    requires LiteralRun(span)
    ensures Print(span) == [] <==> span == []
  {
    if span != [] {
      assert SegmentOk(span[0]);
    }
  }

  /** Looks the pending span up in every current element. */
  method ApplyLiteral(t: Words, at: AtPath, current: seq<nat>, literalPath: Bytes, ghost span: seq<Segment>,
                      ghost rest: seq<Segment>) returns (r: Matches)
    requires FindsInside(at, t) && Composes(at) && AllStarts(t, current)
    requires LiteralRun(span) && literalPath == Print(span)
    ensures r.Ok? ==> AllStarts(t, r.value) &&
                      SelectAll(t, at, current, span + rest) == SelectAll(t, at, r.value, rest)
    ensures r.Err? ==> r.error in SelectAll(t, at, current, span + rest).errors
  {
    PrintsNothing(span);
    if literalPath == [] {
      assert span + rest == rest;
      return Ok(current);
    }
    var next: seq<nat> := [];
    var n := 0;
    JoinNothing(SelectAll(t, at, current, span + rest));
    assert current[0..] == current;
    while n < |current|
      invariant n <= |current| && AllStarts(t, next)
      invariant SelectAll(t, at, current, span + rest) ==
                Join(SelectAll(t, at, next, rest), SelectAll(t, at, current[n..], span + rest))
    {
      var resolved := at(current[n], literalPath);
      SpanStep(t, at, current, n, next, span, rest);
      match resolved {
        case Found(j) => next := next + [j];
        case Absent =>
        case Failed(rc) => return Err(rc);
      }
      n := n + 1;
    }
    assert current[n..] == [];
    JoinNothing(SelectAll(t, at, next, rest));
    return Ok(next);
  }

  function Collect(next: seq<nat>, step: Lookup): seq<nat> {
    if step.Found? then next + [step.index] else next
  }

  lemma SpanStep(t: Words, at: AtPath, current: seq<nat>, n: nat, next: seq<nat>, span: seq<Segment>,
                 rest: seq<Segment>)
    requires FindsInside(at, t) && Composes(at) && AllStarts(t, current) && AllStarts(t, next)
    requires n < |current| && LiteralRun(span) && span != []
    ensures var before := Join(SelectAll(t, at, next, rest), SelectAll(t, at, current[n..], span + rest));
            var step := at(current[n], Print(span));
            if step.Failed? then step.rc in before.errors
            else AllStarts(t, Collect(next, step)) &&
                 before == Join(SelectAll(t, at, Collect(next, step), rest),
                                SelectAll(t, at, current[n + 1..], span + rest))
  {
    SpanMeansItsSegments(t, at, current[n], span, rest);
    var done, left := SelectAll(t, at, next, rest), SelectAll(t, at, current[n + 1..], span + rest);
    var step := at(current[n], Print(span));
    assert current[n..][1..] == current[n + 1..];
    if step.Found? {
      SelectAllJoins(t, at, next, [step.index], rest);
      SelectOne(t, at, step.index, rest);
      JoinAssociates(done, Select(t, at, step.index, rest), left);
    } else {
      JoinNothing(left);
    }
  }

  /** Replaces every current element by its children. */
  method ExpandWildcard(t: Words, current: seq<nat>, ghost at: AtPath, ghost seg: Segment, ghost rest: seq<Segment>)
      returns (next: seq<nat>)
    requires FindsInside(at, t) && AllStarts(t, current) && seg.wildcard
    ensures AllStarts(t, next) && SelectAll(t, at, current, [seg] + rest) == SelectAll(t, at, next, rest)
  {
    next := [];
    var n := 0;
    JoinNothing(SelectAll(t, at, current, [seg] + rest));
    assert current[0..] == current;
    while n < |current|
      invariant n <= |current| && AllStarts(t, next)
      invariant SelectAll(t, at, current, [seg] + rest) ==
                Join(SelectAll(t, at, next, rest), SelectAll(t, at, current[n..], [seg] + rest))
    {
      ChildrenAreStarts(t, current[n]);
      var children := Children(t, current[n]);
      ghost var left := SelectAll(t, at, current[n + 1..], [seg] + rest);
      assert current[n..][1..] == current[n + 1..];
      assert ([seg] + rest)[1..] == rest;
      SelectAllJoins(t, at, next, children, rest);
      JoinAssociates(SelectAll(t, at, next, rest), SelectAll(t, at, children, rest), left);
      next := next + children;
      n := n + 1;
    }
    assert current[n..] == [];
    JoinNothing(SelectAll(t, at, next, rest));
  }

  /** After `n` segments: `current` with the pending span and the rest still means the whole. */
  ghost predicate Pending(t: Words, at: AtPath, root: nat, segments: seq<Segment>, n: nat, current: seq<nat>,
                          span: seq<Segment>, literalPath: Bytes)
  {
    && FindsInside(at, t) && IsValueStart(t, root) && SegmentsOk(segments) && n <= |segments|
    && AllStarts(t, current) && LiteralRun(span) && literalPath == Print(span)
    && Select(t, at, root, segments) == SelectAll(t, at, current, span + segments[n..])
  }

  lemma PendingStarts(t: Words, at: AtPath, root: nat, segments: seq<Segment>)
    requires FindsInside(at, t) && IsValueStart(t, root) && SegmentsOk(segments)
    ensures Pending(t, at, root, segments, 0, [root], [], [])
  {
    SelectOne(t, at, root, segments);
    assert [] + segments[0..] == segments;
  }

  lemma PendingGrows(t: Words, at: AtPath, root: nat, segments: seq<Segment>, n: nat, current: seq<nat>,
                     span: seq<Segment>, literalPath: Bytes)
    requires Pending(t, at, root, segments, n, current, span, literalPath)
    requires n < |segments| && !segments[n].wildcard
    ensures Pending(t, at, root, segments, n + 1, current, span + [segments[n]], literalPath + segments[n].path)
  {
    assert SegmentOk(segments[n]);
    PrintAppends(span, segments[n]);
    assert span + segments[n..] == (span + [segments[n]]) + segments[n + 1..];
  }

  lemma PendingExpands(t: Words, at: AtPath, root: nat, segments: seq<Segment>, n: nat, next: seq<nat>)
    requires FindsInside(at, t) && IsValueStart(t, root) && SegmentsOk(segments) && n < |segments| && AllStarts(t, next)
    requires Select(t, at, root, segments) == SelectAll(t, at, next, segments[n + 1..])
    ensures Pending(t, at, root, segments, n + 1, next, [], [])
  {
    assert [] + segments[n + 1..] == segments[n + 1..];
  }

  method TraverseWildcardPath(t: Words, at: AtPath, root: nat, segments: seq<Segment>) returns (r: Matches)
    requires FindsInside(at, t) && Composes(at) && IsValueStart(t, root) && SegmentsOk(segments)
    ensures Replies(Select(t, at, root, segments), r)
    ensures r.Ok? ==> InOrder(t, r.value, root, After(t, root)) && AllIn(r.value, Nodes(t, root, After(t, root)))
  {
    var current := [root];
    var literalPath: Bytes := [];
    ghost var span: seq<Segment> := [];
    PendingStarts(t, at, root, segments);
    SelectionInOrder(t, at, root, segments);
    SelectionIsBelow(t, at, root, segments);
    var n := 0;
    while n < |segments|
      invariant Pending(t, at, root, segments, n, current, span, literalPath)
    {
      var segment := segments[n];
      if !segment.wildcard {
        PendingGrows(t, at, root, segments, n, current, span, literalPath);
        literalPath := literalPath + segment.path;
        span := span + [segment];
      } else {
        assert segments[n..] == [segment] + segments[n + 1..];
        var applied := ApplyLiteral(t, at, current, literalPath, span, segments[n..]);
        if applied.Err? {
          return applied;
        }
        current := ExpandWildcard(t, applied.value, at, segment, segments[n + 1..]);
        literalPath, span := [], [];
        PendingExpands(t, at, root, segments, n, current);
      }
      n := n + 1;
    }
    r := ApplyLiteral(t, at, current, literalPath, span, []);
    assert segments[n..] == [];
    if r.Ok? {
      SelectAllNothing(t, at, r.value);
    }
  }

  lemma {:induction false} PrintAppends(span: seq<Segment>, seg: Segment)
    ensures Print(span + [seg]) == Print(span) + seg.path
    decreases |span|
  {
    if span == [] {
      assert Print([seg]) == seg.path + Print([]) == seg.path;
      assert span + [seg] == [seg];
    } else {
      PrintAppends(span[1..], seg);
      assert (span + [seg])[1..] == span[1..] + [seg];
    }
  }

  lemma {:induction false} SelectAllNothing(t: Words, at: AtPath, elements: seq<nat>)
    requires FindsInside(at, t) && AllStarts(t, elements)
    ensures SelectAll(t, at, elements, []) == Selection(elements, {})
    decreases |elements|
  {
    if elements != [] {
      SelectAllNothing(t, at, elements[1..]);
      assert [elements[0]] + elements[1..] == elements;
    }
  }

  predicate Wellformed(path: Bytes, validUtf8: bool, segments: seq<Segment>) {
    validUtf8 && Grammatical(segments) && Spells(path, segments)
  }

  /** A path that is one wildcard and nothing else. */
  predicate OneWildcard(path: Bytes) {
    || path == [DOT, STAR] || path == [OPEN, STAR, CLOSE]
    || path == [DOLLAR, DOT, STAR] || path == [DOLLAR, OPEN, STAR, CLOSE]
  }

  lemma OneWildcardSpells(path: Bytes) returns (seg: Segment)
    requires OneWildcard(path)
    ensures seg.wildcard && Wellformed(path, true, [seg])
  {
    seg := Segment(true, if path[|path| - 1] == STAR then [DOT, STAR] else [OPEN, STAR, CLOSE]);
    assert Print([seg]) == seg.path + Print([]) == seg.path;
    assert [seg][0].wildcard;
    assert path == seg.path || path == [DOLLAR] + seg.path;
  }

  /**
   The whole native call.  An expression that spells no grammatical segments is refused before
   anything else; otherwise the reply is what those segments select.
   */
  method ElementAtPathAll(t: Words, at: AtPath, i: nat, path: Bytes, validUtf8: bool, buildInProgress: bool)
      returns (r: Matches)
    requires FindsInside(at, t) && Composes(at) && IsValueStart(t, i)
    ensures (forall segments :: !Wellformed(path, validUtf8, segments)) ==> r == Err(InvalidPath)
    ensures forall segments :: Wellformed(path, validUtf8, segments) ==>
              if buildInProgress then r == Err(ParserBusy) else Replies(Select(t, at, i, segments), r)
    ensures OneWildcard(path) && validUtf8 && !buildInProgress ==> r.Ok? && EveryChild(t, i, r.value)
    ensures r.Ok? ==> InOrder(t, r.value, i, After(t, i)) && AllIn(r.value, Nodes(t, i, After(t, i)))
  {
    if OneWildcard(path) {
      ghost var seg := OneWildcardSpells(path);
      WildcardSelectsEveryChild(t, at, i, seg);
    }
    var ok, segments := ClassifyWildcardPath(path, validUtf8);
    if !ok {
      return Err(InvalidPath);
    }
    assert Wellformed(path, validUtf8, segments);
    if buildInProgress {
      return Err(ParserBusy);
    }
    r := TraverseWildcardPath(t, at, i, segments);
  }
}
