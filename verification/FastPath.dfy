/**
 The fast materializer as a whole: frames built from a tape decode to the tree's Go value, and
 the frames of a descendant are a contiguous slice of its ancestor's frames.
 */
module FastPath {
  import opened Basics
  import opened Tape
  import opened Json
  import opened Frames
  import opened Encoder

  lemma {:induction false} TreeDenotes(t: Words, i: nat, k: nat, key: Bytes)
    requires WfValue(t, i, k)
    ensures Denote(TreeAt(t, i, k, key)) == GoValue(Read(t, i, k))
    decreases k - i, 0
  {
    match t[i]
    case StartArray(_) => ItemTreesDenote(t, i + 1, k - 1);
    case StartObject(_) => FieldTreesDenote(t, i + 1, k - 1);
    case Leaf(_, _) =>
  }

  lemma {:induction false} ItemTreesDenote(t: Words, i: nat, k: nat)
    requires WfItems(t, i, k)
    ensures DenoteElems(ItemTrees(t, i, k)) == GoItems(ReadItems(t, i, k))
    decreases k - i, 1
  {
    if i != k {
      var j := After(t, i);
      TreeDenotes(t, i, j, []);
      ItemTreesDenote(t, j, k);
      DenoteElemsCons(TreeAt(t, i, j, []), ItemTrees(t, j, k));
      GoItemsCons(Read(t, i, j), ReadItems(t, j, k));
    }
  }

  lemma FieldTreesCons(t: Words, i: nat, v: nat, j: nat, k: nat)
    requires WfFields(t, i, k) && i < k && v == i + 1 && j == After(t, v)
    ensures IsKeyWord(t[i]) && WfValue(t, v, j) && v < j <= k && WfFields(t, j, k)
    ensures FieldTrees(t, i, k) == [TreeAt(t, v, j, KeyAt(t, i))] + FieldTrees(t, j, k)
    ensures ReadFields(t, i, k) == [Field(KeyAt(t, i), Read(t, v, j))] + ReadFields(t, j, k)
  {
  }

  lemma {:induction false} FieldTreesDenote(t: Words, i: nat, k: nat)
    requires WfFields(t, i, k)
    ensures DenoteMembers(FieldTrees(t, i, k)) == GoFields(ReadFields(t, i, k))
    decreases k - i, 1
  {
    if i != k {
      var v := i + 1;
      var j := After(t, v);
      FieldTreesCons(t, i, v, j, k);
      var key, tree, value := KeyAt(t, i), TreeAt(t, v, j, KeyAt(t, i)), Read(t, v, j);
      TreeDenotes(t, v, j, key);
      FieldTreesDenote(t, j, k);
      DenoteMembersCons(tree, FieldTrees(t, j, k));
      GoFieldsCons(Field(key, value), ReadFields(t, j, k));
      assert tree.frame.key.bytes == key;
    }
  }

  lemma DenoteElemsCons(tree: FrameTree, rest: seq<FrameTree>)
    ensures DenoteElems([tree] + rest) == [Denote(tree)] + DenoteElems(rest)
  {
    assert ([tree] + rest)[1..] == rest;
  }

  lemma DenoteMembersCons(tree: FrameTree, rest: seq<FrameTree>)
    ensures DenoteMembers([tree] + rest) == map[tree.frame.key.bytes := Denote(tree)] + DenoteMembers(rest)
  {
    assert ([tree] + rest)[1..] == rest;
  }

  lemma GoItemsCons(v: Tree, rest: seq<Tree>)
    ensures GoItems([v] + rest) == [GoValue(v)] + GoItems(rest)
  {
    assert ([v] + rest)[1..] == rest;
  }

  lemma GoFieldsCons(f: Field, rest: seq<Field>)
    ensures GoFields([f] + rest) == map[f.key := GoValue(f.value)] + GoFields(rest)
  {
    assert ([f] + rest)[1..] == rest;
  }

  // ----- Built trees are what the decoder accepts

  lemma {:induction false} TreeIsValid(t: Words, i: nat, k: nat, key: Bytes)
    requires WfValue(t, i, k) && CountsFit(TreeAt(t, i, k, key))
    ensures Valid(TreeAt(t, i, k, key))
    decreases k - i, 0
  {
    match t[i]
    case StartArray(_) => ItemTreesAreValid(t, i + 1, k - 1);
    case StartObject(_) => FieldTreesAreValid(t, i + 1, k - 1);
    case Leaf(_, _) =>
  }

  lemma {:induction false} ItemTreesAreValid(t: Words, i: nat, k: nat)
    requires WfItems(t, i, k) && CountsFitAll(ItemTrees(t, i, k))
    ensures forall kid :: kid in ItemTrees(t, i, k) ==> Valid(kid)
    decreases k - i, 1
  {
    if i != k {
      var j := After(t, i);
      assert ItemTrees(t, i, k)[0] == TreeAt(t, i, j, []) && ItemTrees(t, i, k)[1..] == ItemTrees(t, j, k);
      TreeIsValid(t, i, j, []);
      ItemTreesAreValid(t, j, k);
    }
  }

  predicate MembersValid(trees: seq<FrameTree>) {
    forall kid :: kid in trees ==> SpanOk(kid.frame.key) && Valid(kid)
  }

  lemma MembersValidCons(first: FrameTree, rest: seq<FrameTree>)
    requires SpanOk(first.frame.key) && Valid(first) && MembersValid(rest)
    ensures MembersValid([first] + rest)
  {
    forall kid | kid in [first] + rest
      ensures SpanOk(kid.frame.key) && Valid(kid)
    {
      assert kid == first || kid in rest;
    }
  }

  lemma KeyIsThere(t: Words, i: nat, k: nat, key: Bytes)
    requires WfValue(t, i, k)
    ensures SpanOk(TreeAt(t, i, k, key).frame.key)
  {
  }

  lemma {:induction false} FieldTreesAreValid(t: Words, i: nat, k: nat)
    requires WfFields(t, i, k) && CountsFitAll(FieldTrees(t, i, k))
    ensures MembersValid(FieldTrees(t, i, k))
    decreases k - i, 1
  {
    if i != k {
      var v := i + 1;
      var j := After(t, v);
      FieldTreesCons(t, i, v, j, k);
      var first, rest := TreeAt(t, v, j, KeyAt(t, i)), FieldTrees(t, j, k);
      CountsFitCons(first, rest);
      TreeIsValid(t, v, j, KeyAt(t, i));
      FieldTreesAreValid(t, j, k);
      KeyIsThere(t, v, j, KeyAt(t, i));
      MembersValidCons(first, rest);
    }
  }

  lemma CountsFitCons(first: FrameTree, rest: seq<FrameTree>)
    ensures CountsFitAll([first] + rest) <==> CountsFit(first) && CountsFitAll(rest)
  {
    assert ([first] + rest)[1..] == rest;
  }

  /** Decoding the frames of a value gives the Go value of the tree it spells. */
  lemma FramesDecodeToValue(t: Words, i: nat, k: nat)
    requires WfValue(t, i, k) && CountsFit(TreeAt(t, i, k, []))
    ensures Decode(Listing(TreeAt(t, i, k, []))) == Ok(GoValue(Read(t, i, k)))
  {
    var tree := TreeAt(t, i, k, []);
    TreeIsValid(t, i, k, []);
    assert Lists(tree, Listing(tree));
    DecoderAcceptsExactlyListings(Listing(tree));
    TreeDenotes(t, i, k, []);
  }

  // ----- Frames of a descendant

  /** Positions where an element starts, inside the value at [i, k); keys are not elements. */
  function Elements(t: Words, i: nat, k: nat): set<nat>
    requires WfValue(t, i, k)
    decreases k - i, 0
  {
    match t[i]
    case StartArray(_) => {i} + ItemElements(t, i + 1, k - 1)
    case StartObject(_) => {i} + FieldElements(t, i + 1, k - 1)
    case Leaf(_, _) => {i}
  }

  function ItemElements(t: Words, i: nat, k: nat): set<nat>
    requires WfItems(t, i, k)
    decreases k - i, 1
  {
    if i == k then {} else Elements(t, i, After(t, i)) + ItemElements(t, After(t, i), k)
  }

  function FieldElements(t: Words, i: nat, k: nat): set<nat>
    requires WfFields(t, i, k)
    decreases k - i, 1
  {
    if i == k then {} else Elements(t, i + 1, After(t, i + 1)) + FieldElements(t, After(t, i + 1), k)
  }

  lemma HoldsWhole<T>(s: seq<T>)
    ensures Holds(s, 0, s)
  {
  }

  lemma HoldsInFirst<T>(s: seq<T>, suffix: seq<T>, p: nat, w: seq<T>)
    requires Holds(s, p, w)
    ensures Holds(s + suffix, p, w)
  {
    assert forall j {:trigger w[j]} :: 0 <= j < |w| ==> (s + suffix)[p + j] == s[p + j];
  }

  lemma HoldsInRest<T>(prefix: seq<T>, s: seq<T>, p: nat, w: seq<T>)
    requires Holds(s, p, w)
    ensures Holds(prefix + s, |prefix| + p, w)
  {
    assert forall j {:trigger w[j]} :: 0 <= j < |w| ==> (prefix + s)[|prefix| + p + j] == s[p + j];
  }

  /** The frames of element `n`, as it sits under its ancestor, start at frame `p` of the ancestor. */
  lemma {:induction false} DescendantSlice(t: Words, i: nat, k: nat, key: Bytes, n: nat)
      returns (p: nat, nkey: Bytes)
    requires WfValue(t, i, k) && n in Elements(t, i, k)
    ensures IsValueStart(t, n)
    ensures Holds(Listing(TreeAt(t, i, k, key)), p, Listing(TreeAt(t, n, After(t, n), nkey)))
    decreases k - i, 0
  {
    if n == i {
      p, nkey := 0, key;
      assert After(t, n) == k;
      HoldsWhole(Listing(TreeAt(t, i, k, key)));
    } else {
      var tree := TreeAt(t, i, k, key);
      var q: nat;
      if t[i].StartArray? {
        q, nkey := ItemSlice(t, i + 1, k - 1, n);
        assert tree.kids == ItemTrees(t, i + 1, k - 1);
      } else {
        q, nkey := FieldSlice(t, i + 1, k - 1, n);
        assert tree.kids == FieldTrees(t, i + 1, k - 1);
      }
      HoldsInRest([tree.frame], ListingAll(tree.kids), q, Listing(TreeAt(t, n, After(t, n), nkey)));
      p := 1 + q;
    }
  }

  lemma {:induction false} ItemSlice(t: Words, i: nat, k: nat, n: nat) returns (p: nat, nkey: Bytes)
    requires WfItems(t, i, k) && n in ItemElements(t, i, k)
    ensures IsValueStart(t, n)
    ensures Holds(ListingAll(ItemTrees(t, i, k)), p, Listing(TreeAt(t, n, After(t, n), nkey)))
    decreases k - i, 1
  {
    var j := After(t, i);
    var first, rest := TreeAt(t, i, j, []), ItemTrees(t, j, k);
    if n in Elements(t, i, j) {
      p, nkey := DescendantSlice(t, i, j, [], n);
      SliceOfFirst(first, rest, p, Listing(TreeAt(t, n, After(t, n), nkey)));
    } else {
      p, nkey := ItemSlice(t, j, k, n);
      SliceOfRest(first, rest, p, Listing(TreeAt(t, n, After(t, n), nkey)));
      p := |Listing(first)| + p;
    }
  }

  lemma {:induction false} FieldSlice(t: Words, i: nat, k: nat, n: nat) returns (p: nat, nkey: Bytes)
    requires WfFields(t, i, k) && n in FieldElements(t, i, k)
    ensures IsValueStart(t, n)
    ensures Holds(ListingAll(FieldTrees(t, i, k)), p, Listing(TreeAt(t, n, After(t, n), nkey)))
    decreases k - i, 1
  {
    var j := After(t, i + 1);
    var first, rest := TreeAt(t, i + 1, j, KeyAt(t, i)), FieldTrees(t, j, k);
    if n in Elements(t, i + 1, j) {
      p, nkey := DescendantSlice(t, i + 1, j, KeyAt(t, i), n);
      SliceOfFirst(first, rest, p, Listing(TreeAt(t, n, After(t, n), nkey)));
    } else {
      p, nkey := FieldSlice(t, j, k, n);
      SliceOfRest(first, rest, p, Listing(TreeAt(t, n, After(t, n), nkey)));
      p := |Listing(first)| + p;
    }
  }

  lemma ListingAllCons(first: FrameTree, rest: seq<FrameTree>)
    ensures ListingAll([first] + rest) == Listing(first) + ListingAll(rest)
  {
    assert ([first] + rest)[1..] == rest;
  }

  lemma SliceOfFirst(first: FrameTree, rest: seq<FrameTree>, p: nat, w: seq<Frame>)
    requires Holds(Listing(first), p, w)
    ensures Holds(ListingAll([first] + rest), p, w)
  {
    ListingAllCons(first, rest);
    HoldsInFirst(Listing(first), ListingAll(rest), p, w);
  }

  lemma SliceOfRest(first: FrameTree, rest: seq<FrameTree>, p: nat, w: seq<Frame>)
    requires Holds(ListingAll(rest), p, w)
    ensures Holds(ListingAll([first] + rest), |Listing(first)| + p, w)
  {
    ListingAllCons(first, rest);
    HoldsInRest(Listing(first), ListingAll(rest), p, w);
  }

  lemma HoldsSlice<T>(s: seq<T>, p: nat, w: seq<T>)
    requires Holds(s, p, w)
    ensures s[p..p + |w|] == w
  {
    assert forall j {:trigger w[j]} :: 0 <= j < |w| ==> s[p..p + |w|][j] == s[p + j];
  }

  lemma SliceTail<T>(s: seq<T>, p: nat, first: T, rest: seq<T>)
    requires Holds(s, p, [first] + rest)
    ensures p < |s| && s[p] == first && s[p + 1..p + 1 + |rest|] == rest
  {
    HoldsHead(s, p, first, rest);
    HoldsSlice(s, p + 1, rest);
  }

  /** Clearing a tree's own key changes the first frame of its listing only. */
  lemma ListingWithKeyCleared(tree: FrameTree)
    ensures Listing(tree) == [tree.frame] + ListingAll(tree.kids)
    ensures Listing(Node(tree.frame.(key := KeySpan([])), tree.kids)) ==
            [tree.frame.(key := KeySpan([]))] + ListingAll(tree.kids)
  {
  }

  lemma SliceWithKeyCleared(all: seq<Frame>, p: nat, tree: FrameTree)
    requires Holds(all, p, Listing(tree))
    ensures p + |Listing(tree)| <= |all| && |Listing(tree)| > 0
    ensures Listing(Node(tree.frame.(key := KeySpan([])), tree.kids)) ==
            [all[p].(key := KeySpan([]))] + all[p + 1..p + |Listing(tree)|]
  {
    ListingWithKeyCleared(tree);
    SliceTail(all, p, tree.frame, ListingAll(tree.kids));
  }

  lemma BareTree(t: Words, n: nat, k: nat, key: Bytes)
    requires WfValue(t, n, k)
    ensures var keyed := TreeAt(t, n, k, key);
            TreeAt(t, n, k, []) == Node(keyed.frame.(key := KeySpan([])), keyed.kids)
  {
  }

  /** Frames built for a descendant: the ancestor's slice with only the first key cleared. */
  lemma DescendantFrames(t: Words, i: nat, k: nat, n: nat) returns (p: nat)
    requires WfValue(t, i, k) && n in Elements(t, i, k)
    ensures IsValueStart(t, n)
    ensures var all := Listing(TreeAt(t, i, k, []));
            var own := Listing(TreeAt(t, n, After(t, n), []));
            && p + |own| <= |all|
            && own == [all[p].(key := KeySpan([]))] + all[p + 1..p + |own|]
  {
    var nkey;
    p, nkey := DescendantSlice(t, i, k, [], n);
    var keyed := TreeAt(t, n, After(t, n), nkey);
    BareTree(t, n, After(t, n), nkey);
    ListingWithKeyCleared(keyed);
    SliceWithKeyCleared(Listing(TreeAt(t, i, k, [])), p, keyed);
  }
}
