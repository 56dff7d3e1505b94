/**
 JSON trees, the tape that spells one out, and the plain Go value a tree stands for.
 `Layout` and `Read` are inverse, so a statement about well-formed tapes is a statement
 about all JSON trees.
 */
module Json {
  import opened Basics
  import opened Tape

  datatype Tree =
    | Atom(scalar: Scalar)
    | Array(items: seq<Tree>)
    | Object(fields: seq<Field>)

  datatype Field = Field(key: Bytes, value: Tree)

  // ----- From a tree to tape words

  /** The words of `v` placed at index `i`; `pad(s)` is the raw payload that follows scalar `s`. */
  function Layout(v: Tree, i: nat, pad: Scalar -> Words): Words
    decreases v
  {
    match v
    case Atom(s) => [Leaf(s, 1 + |pad(s)|)] + pad(s)
    case Array(items) =>
      var body := LayoutItems(items, i + 1, pad);
      [StartArray(i + 2 + |body|)] + body + [EndArray]
    case Object(fields) =>
      var body := LayoutFields(fields, i + 1, pad);
      [StartObject(i + 2 + |body|)] + body + [EndObject]
  }

  function LayoutItems(items: seq<Tree>, i: nat, pad: Scalar -> Words): Words
    decreases items
  {
    if items == [] then []
    else
      var first := Layout(items[0], i, pad);
      first + LayoutItems(items[1..], i + |first|, pad)
  }

  function LayoutFields(fields: seq<Field>, i: nat, pad: Scalar -> Words): Words
    decreases fields
  {
    if fields == [] then []
    else
      var first := Layout(fields[0].value, i + 1, pad);
      [Leaf(Str(fields[0].key), 1)] + (first + LayoutFields(fields[1..], i + 1 + |first|, pad))
  }

  /** A whole document: header word, root value at index 1, trailer word. */
  function Document(v: Tree, header: Word, trailer: Word, pad: Scalar -> Words): Words {
    [header] + Layout(v, ROOT_JSON_INDEX, pad) + [trailer]
  }

  // ----- From tape words to a tree

  function Read(t: Words, i: nat, k: nat): Tree
    requires WfValue(t, i, k)
    decreases k - i, 0
  {
    match t[i]
    case StartArray(_) => Array(ReadItems(t, i + 1, k - 1))
    case StartObject(_) => Object(ReadFields(t, i + 1, k - 1))
    case Leaf(s, _) => Atom(s)
  }

  function ReadItems(t: Words, i: nat, k: nat): seq<Tree>
    requires WfItems(t, i, k)
    decreases k - i, 1
  {
    if i == k then [] else [Read(t, i, After(t, i))] + ReadItems(t, After(t, i), k)
  }

  function ReadFields(t: Words, i: nat, k: nat): seq<Field>
    requires WfFields(t, i, k)
    decreases k - i, 1
  {
    if i == k then []
    else
      var v := i + 1;
      [Field(KeyAt(t, i), Read(t, v, After(t, v)))] + ReadFields(t, After(t, v), k)
  }

  // ----- The two are inverse

  lemma ItemsCons(t: Words, i: nat, j: nat, k: nat)
    requires i < j <= k && WfValue(t, i, j) && WfItems(t, j, k)
    ensures WfItems(t, i, k) && ReadItems(t, i, k) == [Read(t, i, j)] + ReadItems(t, j, k)
  {
  }

  lemma FieldsCons(t: Words, i: nat, j: nat, k: nat)
    requires i + 1 < j <= k && WfValue(t, i + 1, j) && WfFields(t, j, k) && IsKeyWord(t[i])
    ensures WfFields(t, i, k)
    ensures ReadFields(t, i, k) == [Field(KeyAt(t, i), Read(t, i + 1, j))] + ReadFields(t, j, k)
  {
  }

  lemma {:induction false} ReadLayout(t: Words, v: Tree, i: nat, pad: Scalar -> Words)
    requires Holds(t, i, Layout(v, i, pad))
    ensures WfValue(t, i, i + |Layout(v, i, pad)|)
    ensures Read(t, i, i + |Layout(v, i, pad)|) == v
    decreases v
  {
    match v
    case Atom(s) =>
      HoldsHead(t, i, Leaf(s, 1 + |pad(s)|), pad(s));
    case Array(items) =>
      var body := LayoutItems(items, i + 1, pad);
      ContainerWords(t, i, StartArray(i + 2 + |body|), body, EndArray);
      ReadLayoutItems(t, items, i + 1, pad);
    case Object(fields) =>
      var body := LayoutFields(fields, i + 1, pad);
      ContainerWords(t, i, StartObject(i + 2 + |body|), body, EndObject);
      ReadLayoutFields(t, fields, i + 1, pad);
  }

  lemma ContainerWords(t: Words, i: nat, open: Word, body: Words, close: Word)
    requires Holds(t, i, [open] + body + [close])
    ensures i + |body| + 2 <= |t|
    ensures t[i] == open && Holds(t, i + 1, body) && t[i + 1 + |body|] == close
  {
    HoldsSplit(t, i, [open] + body, [close]);
    HoldsHead(t, i, open, body);
    HoldsHead(t, i + 1 + |body|, close, []);
  }

  lemma {:induction false} ReadLayoutItems(t: Words, items: seq<Tree>, i: nat, pad: Scalar -> Words)
    requires Holds(t, i, LayoutItems(items, i, pad))
    ensures WfItems(t, i, i + |LayoutItems(items, i, pad)|)
    ensures ReadItems(t, i, i + |LayoutItems(items, i, pad)|) == items
    decreases items
  {
    if items != [] {
      var first := Layout(items[0], i, pad);
      var j := i + |first|;
      var rest := LayoutItems(items[1..], j, pad);
      HoldsSplit(t, i, first, rest);
      ReadLayout(t, items[0], i, pad);
      ReadLayoutItems(t, items[1..], j, pad);
      ItemsCons(t, i, j, j + |rest|);
    }
  }

  lemma {:induction false} ReadLayoutFields(t: Words, fields: seq<Field>, i: nat, pad: Scalar -> Words)
    requires Holds(t, i, LayoutFields(fields, i, pad))
    ensures WfFields(t, i, i + |LayoutFields(fields, i, pad)|)
    ensures ReadFields(t, i, i + |LayoutFields(fields, i, pad)|) == fields
    decreases fields
  {
    if fields != [] {
      var key := Leaf(Str(fields[0].key), 1);
      var first := Layout(fields[0].value, i + 1, pad);
      var j := i + 1 + |first|;
      var rest := LayoutFields(fields[1..], j, pad);
      var k := j + |rest|;
      assert k == i + |LayoutFields(fields, i, pad)|;
      HoldsHead(t, i, key, first + rest);
      HoldsSplit(t, i + 1, first, rest);
      ReadLayout(t, fields[0].value, i + 1, pad);
      ReadLayoutFields(t, fields[1..], j, pad);
      FieldsCons(t, i, j, k);
      assert ReadFields(t, i, k) == [fields[0]] + fields[1..] == fields;
    }
  }

  /** Every tree has a document tape that is well formed and reads back as that tree. */
  lemma DocumentReadsBack(v: Tree, header: Word, trailer: Word, pad: Scalar -> Words)
    ensures var t := Document(v, header, trailer, pad);
            && IsValueStart(t, ROOT_JSON_INDEX)
            && After(t, ROOT_JSON_INDEX) < |t|
            && Read(t, ROOT_JSON_INDEX, After(t, ROOT_JSON_INDEX)) == v
  {
    var t := Document(v, header, trailer, pad);
    assert Holds(t, ROOT_JSON_INDEX, Layout(v, ROOT_JSON_INDEX, pad));
    ReadLayout(t, v, ROOT_JSON_INDEX, pad);
  }

  // ----- The Go value of a tree

  datatype Any =
    | GoNil
    | GoBool(b: bool)
    | GoInt64(i: i64)
    | GoUint64(u: u64)
    | GoFloat64(bits: u64)
    | GoString(text: Bytes)
    | GoSlice(elems: seq<Any>)
    | GoMap(entries: map<Bytes, Any>)

  /** A big integer becomes a Go string holding its exact digits. */
  function GoScalar(s: Scalar): Any {
    match s
    case Null => GoNil
    case Bool(b) => GoBool(b)
    case Int64(i) => GoInt64(i)
    case Uint64(u) => GoUint64(u)
    case Float64(bits) => GoFloat64(bits)
    case Str(text) => GoString(text)
    case BigInt(digits) => GoString(digits)
  }

  function GoValue(v: Tree): Any
    decreases v
  {
    match v
    case Atom(s) => GoScalar(s)
    case Array(items) => GoSlice(GoItems(items))
    case Object(fields) => GoMap(GoFields(fields))
  }

  function GoItems(items: seq<Tree>): (r: seq<Any>)
    ensures |r| == |items|
    decreases items
  {
    if items == [] then [] else [GoValue(items[0])] + GoItems(items[1..])
  }

  /** A key maps to the value of the last field that carries it. */
  function GoFields(fields: seq<Field>): map<Bytes, Any>
    decreases fields
  {
    if fields == [] then map[]
    else map[fields[0].key := GoValue(fields[0].value)] + GoFields(fields[1..])
  }

  predicate LastWith(fields: seq<Field>, key: Bytes, j: nat) {
    j < |fields| && fields[j].key == key && forall l :: j < l < |fields| ==> fields[l].key != key
  }

  lemma {:induction false} LastDuplicateWins(fields: seq<Field>, key: Bytes, j: nat)
    requires LastWith(fields, key, j)
    ensures key in GoFields(fields) && GoFields(fields)[key] == GoValue(fields[j].value)
    decreases fields
  {
    var rest := fields[1..];
    if j > 0 {
      assert LastWith(rest, key, j - 1);
      LastDuplicateWins(rest, key, j - 1);
    } else if key in GoFields(rest) {
      var l := EveryKeyHasALast(rest, key);
      assert false;
    }
  }

  lemma {:induction false} EveryKeyHasALast(fields: seq<Field>, key: Bytes) returns (j: nat)
    requires key in GoFields(fields)
    ensures LastWith(fields, key, j)
    decreases fields
  {
    var rest := fields[1..];
    if key in GoFields(rest) {
      j := EveryKeyHasALast(rest, key);
      j := j + 1;
    } else {
      j := 0;
      if l :| 0 < l < |fields| && fields[l].key == key {
        var m := LastFrom(rest, key, l - 1);
        LastDuplicateWins(rest, key, m);
      }
    }
  }

  lemma {:induction false} LastFrom(fields: seq<Field>, key: Bytes, l: nat) returns (j: nat)
    requires l < |fields| && fields[l].key == key
    ensures LastWith(fields, key, j)
    decreases |fields| - l
  {
    if n :| l < n < |fields| && fields[n].key == key {
      j := LastFrom(fields, key, n);
    } else {
      j := l;
    }
  }

  /**
   The Go values a tree may become, told piece by piece: a slice with one element per item, in
   order; a map with exactly the keys that occur, each with a value of its last field.
   */
  ghost predicate Denotes(v: Tree, a: Any)
    decreases v
  {
    match v
    case Atom(Null) => a == GoNil
    case Atom(Bool(b)) => a == GoBool(b)
    case Atom(Int64(i)) => a == GoInt64(i)
    case Atom(Uint64(u)) => a == GoUint64(u)
    case Atom(Float64(bits)) => a == GoFloat64(bits)
    case Atom(Str(text)) => a == GoString(text)
    case Atom(BigInt(digits)) => a == GoString(digits)
    case Array(items) =>
      a.GoSlice? && |a.elems| == |items| && forall k :: 0 <= k < |items| ==> Denotes(items[k], a.elems[k])
    case Object(fields) =>
      && a.GoMap?
      && (forall j :: 0 <= j < |fields| ==> fields[j].key in a.entries)
      && (forall key :: key in a.entries ==>
            exists j: nat :: LastWith(fields, key, j) && Denotes(fields[j].value, a.entries[key]))
  }

  lemma {:induction false} GoItemsAt(items: seq<Tree>, k: nat)
    requires k < |items|
    ensures GoItems(items)[k] == GoValue(items[k])
    decreases items
  {
    if k > 0 {
      GoItemsAt(items[1..], k - 1);
    }
  }

  lemma {:induction false} GoValueIsDenoted(v: Tree)
    ensures Denotes(v, GoValue(v))
    decreases v
  {
    match v
    case Atom(_) =>
    case Array(items) =>
      forall k: nat | k < |items|
        ensures Denotes(items[k], GoItems(items)[k])
      {
        GoItemsAt(items, k);
        GoValueIsDenoted(items[k]);
      }
    case Object(fields) =>
      forall j: nat | j < |fields|
        ensures fields[j].key in GoFields(fields)
      {
        var l := LastFrom(fields, fields[j].key, j);
        LastDuplicateWins(fields, fields[j].key, l);
      }
      forall key | key in GoFields(fields)
        ensures exists j: nat :: LastWith(fields, key, j) && Denotes(fields[j].value, GoFields(fields)[key])
      {
        var j := EveryKeyHasALast(fields, key);
        LastDuplicateWins(fields, key, j);
        GoValueIsDenoted(fields[j].value);
      }
  }

  /** A tree becomes one Go value only. */
  lemma {:induction false} DenotedIsGoValue(v: Tree, a: Any)
    requires Denotes(v, a)
    ensures a == GoValue(v)
    decreases v
  {
    match v
    case Atom(_) =>
    case Array(items) =>
      forall k: nat | k < |items|
        ensures a.elems[k] == GoItems(items)[k]
      {
        GoItemsAt(items, k);
        DenotedIsGoValue(items[k], a.elems[k]);
      }
      assert a.elems == GoItems(items);
    case Object(fields) =>
      forall key | key in GoFields(fields)
        ensures key in a.entries
      {
        var j := EveryKeyHasALast(fields, key);
        assert fields[j].key in a.entries;
      }
      forall key | key in a.entries
        ensures key in GoFields(fields) && a.entries[key] == GoFields(fields)[key]
      {
        var j: nat :| LastWith(fields, key, j) && Denotes(fields[j].value, a.entries[key]);
        LastDuplicateWins(fields, key, j);
        DenotedIsGoValue(fields[j].value, a.entries[key]);
      }
      assert a.entries == GoFields(fields);
  }

  /** The Go value of a tree is the one that the tree denotes. */
  lemma GoValueIsMeaning(v: Tree, a: Any)
    ensures Denotes(v, a) <==> a == GoValue(v)
  {
    GoValueIsDenoted(v);
    if Denotes(v, a) {
      DenotedIsGoValue(v, a);
    }
  }
}
