/**
 The parsed document as the native layer sees it: a sequence of tape words.

 A container occupies the words from its start word to its end word, and the start word
 carries the index one past the end word.  A scalar occupies `width` words, of which only
 the first is meaningful; the remaining words are raw payload, so any word whatever may
 stand there.  An object field is a one-word string key followed by its value.
 */
module Tape {
  import opened Basics

  /** Index of the root element on every tape; word 0 is the document header. */
  const ROOT_JSON_INDEX: nat := 1

  datatype Scalar =
    | Null
    | Bool(b: bool)
    | Int64(i: i64)
    | Uint64(u: u64)
    | Float64(bits: u64)
    | Str(text: Bytes)
    | BigInt(digits: Bytes)

  datatype Word =
    | StartArray(after: nat)
    | EndArray
    | StartObject(after: nat)
    | EndObject
    | Leaf(value: Scalar, width: nat)

  type Words = seq<Word>

  // Value kinds, numbered as in the C interface.
  const KIND_INVALID: u32 := 0
  const KIND_NULL: u32 := 1
  const KIND_BOOL: u32 := 2
  const KIND_INT64: u32 := 3
  const KIND_UINT64: u32 := 4
  const KIND_FLOAT64: u32 := 5
  const KIND_STRING: u32 := 6
  const KIND_ARRAY: u32 := 7
  const KIND_OBJECT: u32 := 8
  const KIND_BIGINT: u32 := 9

  function ScalarKind(s: Scalar): u32 {
    match s
    case Null => KIND_NULL
    case Bool(_) => KIND_BOOL
    case Int64(_) => KIND_INT64
    case Uint64(_) => KIND_UINT64
    case Float64(_) => KIND_FLOAT64
    case Str(_) => KIND_STRING
    case BigInt(_) => KIND_BIGINT
  }

  /** One past the element that starts at `i`. */
  function After(t: Words, i: nat): nat
    requires i < |t|
  {
    match t[i]
    case StartArray(after) => after
    case StartObject(after) => after
    case Leaf(_, width) => i + width
    case EndArray => i + 1
    case EndObject => i + 1
  }

  // ----- Well-formed layout

  /** One value occupies exactly the words [i, k). */
  predicate WfValue(t: Words, i: nat, k: nat)
    decreases k - i, 0
  {
    && i < k <= |t|
    && After(t, i) == k
    && match t[i]
       case StartArray(_) => i + 2 <= k && t[k - 1] == EndArray && WfItems(t, i + 1, k - 1)
       case StartObject(_) => i + 2 <= k && t[k - 1] == EndObject && WfFields(t, i + 1, k - 1)
       case Leaf(_, _) => true
       case EndArray => false
       case EndObject => false
  }

  /** A run of values occupies exactly the words [i, k). */
  predicate WfItems(t: Words, i: nat, k: nat)
    decreases k - i, 1
  {
    || i == k <= |t|
    || (i < k <= |t| && i < After(t, i) <= k && WfValue(t, i, After(t, i)) && WfItems(t, After(t, i), k))
  }

  predicate IsKeyWord(w: Word) {
    w.Leaf? && w.value.Str? && w.width == 1
  }

  /** A run of key/value pairs occupies exactly the words [i, k). */
  predicate WfFields(t: Words, i: nat, k: nat)
    decreases k - i, 1
  {
    || i == k <= |t|
    || (i + 1 < k <= |t| && IsKeyWord(t[i]) && i + 1 < After(t, i + 1) <= k
        && WfValue(t, i + 1, After(t, i + 1)) && WfFields(t, After(t, i + 1), k))
  }

  /** A value starts at `i`: the shape every native accessor needs of its index. */
  predicate IsValueStart(t: Words, i: nat) {
    i < |t| && WfValue(t, i, After(t, i))
  }

  // ----- Native accessors.  Each is defined only where an element starts, so a call with the
  // index of a payload word or of an end marker does not verify.

  function KindAt(t: Words, i: nat): u32
    requires IsValueStart(t, i)
  {
    match t[i]
    case StartArray(_) => KIND_ARRAY
    case StartObject(_) => KIND_OBJECT
    case Leaf(s, _) => ScalarKind(s)
  }

  function ScalarAt(t: Words, i: nat): Scalar
    requires IsValueStart(t, i) && t[i].Leaf?
  {
    t[i].value
  }

  function KeyAt(t: Words, i: nat): Bytes
    requires i < |t| && IsKeyWord(t[i])
  {
    t[i].value.text
  }

  function AfterIndex(t: Words, i: nat): (k: nat)
    requires IsValueStart(t, i)
    ensures i < k <= |t|
  {
    After(t, i)
  }

  /** First child position and end position of the container at `i`. */
  function IterBounds(t: Words, i: nat): (r: (nat, nat))
    requires IsValueStart(t, i) && (t[i].StartArray? || t[i].StartObject?)
    ensures r.0 == i + 1 <= r.1 < After(t, i) <= |t|
    ensures t[i].StartArray? ==> WfItems(t, r.0, r.1) && t[r.1] == EndArray
    ensures t[i].StartObject? ==> WfFields(t, r.0, r.1) && t[r.1] == EndObject
  {
    (i + 1, After(t, i) - 1)
  }

  // ----- Element starts

  /** Positions where an element or an object key starts, inside the value at [i, k). */
  function Nodes(t: Words, i: nat, k: nat): set<nat>
    requires WfValue(t, i, k)
    decreases k - i, 0
  {
    match t[i]
    case StartArray(_) => {i} + ItemNodes(t, i + 1, k - 1)
    case StartObject(_) => {i} + FieldNodes(t, i + 1, k - 1)
    case Leaf(_, _) => {i}
  }

  function ItemNodes(t: Words, i: nat, k: nat): set<nat>
    requires WfItems(t, i, k)
    decreases k - i, 1
  {
    if i == k then {} else Nodes(t, i, After(t, i)) + ItemNodes(t, After(t, i), k)
  }

  function FieldNodes(t: Words, i: nat, k: nat): set<nat>
    requires WfFields(t, i, k)
    decreases k - i, 1
  {
    if i == k then {}
    else {i} + Nodes(t, i + 1, After(t, i + 1)) + FieldNodes(t, After(t, i + 1), k)
  }

  /** What a member of `Nodes` guarantees about the native call that receives it. */
  predicate NodeWithin(t: Words, n: nat, lo: nat, hi: nat, all: set<nat>) {
    lo <= n < hi && IsValueStart(t, n) && After(t, n) <= hi && Nodes(t, n, After(t, n)) <= all
  }

  lemma {:induction false} NodesAreStarts(t: Words, i: nat, k: nat)
    requires WfValue(t, i, k)
    ensures forall n :: n in Nodes(t, i, k) ==> NodeWithin(t, n, i, k, Nodes(t, i, k))
    decreases k - i, 0
  {
    match t[i]
    case StartArray(_) => ItemNodesAreStarts(t, i + 1, k - 1);
    case StartObject(_) => FieldNodesAreStarts(t, i + 1, k - 1);
    case Leaf(_, _) =>
  }

  lemma {:induction false} ItemNodesAreStarts(t: Words, i: nat, k: nat)
    requires WfItems(t, i, k)
    ensures forall n :: n in ItemNodes(t, i, k) ==> NodeWithin(t, n, i, k, ItemNodes(t, i, k))
    decreases k - i, 1
  {
    if i != k {
      NodesAreStarts(t, i, After(t, i));
      ItemNodesAreStarts(t, After(t, i), k);
    }
  }

  lemma {:induction false} FieldNodesAreStarts(t: Words, i: nat, k: nat)
    requires WfFields(t, i, k)
    ensures forall n :: n in FieldNodes(t, i, k) ==> NodeWithin(t, n, i, k, FieldNodes(t, i, k))
    decreases k - i, 1
  {
    if i != k {
      var v := i + 1;
      assert WfValue(t, i, i + 1) && Nodes(t, i, i + 1) == {i};
      NodesAreStarts(t, v, After(t, v));
      FieldNodesAreStarts(t, After(t, v), k);
    }
  }

  // ----- Children in document order

  function ItemStarts(t: Words, i: nat, k: nat): seq<nat>
    requires WfItems(t, i, k)
    decreases k - i
  {
    if i == k then [] else [i] + ItemStarts(t, After(t, i), k)
  }

  /** Positions of the keys; each value follows its key directly. */
  function KeyStarts(t: Words, i: nat, k: nat): seq<nat>
    requires WfFields(t, i, k)
    decreases k - i
  {
    if i == k then [] else [i] + KeyStarts(t, After(t, i + 1), k)
  }
}
