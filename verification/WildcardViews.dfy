/**
 The wildcard call from end to end: a caller's view and path in, views of the matches out.

 The traversal's reply is what the registry assumes of lookups, so the views it hands out
 resolve, one by one and in document order, to what the path's segments select.
 */
module WildcardViews {
  import opened Basics
  import opened Tape
  import opened RegistrySpec
  import opened Registry
  import opened PathTraversal

  /** The views resolve, in state `s`, to the listed elements of document `d`. */
  ghost predicate ResolveTo(s: State, views: seq<ValueView>, d: nat, elements: seq<nat>) {
    |views| == |elements| && forall j :: 0 <= j < |views| ==> ResolveView(s, views[j]) == Some((d, elements[j]))
  }

  /** What the reply says about the segments that the path spells. */
  ghost predicate Answers(s: State, r: Result<seq<ValueView>, Status>, d: nat, selected: Selection) {
    if selected.errors == {} then r.Ok? && ResolveTo(s, r.value, d, selected.matches)
    else r.Err? && r.error in selected.errors
  }

  method ElementAtPathWildcard(reg: Registry, view: ValueView, path: Bytes, validUtf8: bool, buildInProgress: bool,
                               at: AtPath) returns (r: Result<seq<ValueView>, Status>)
    requires Inv(reg.Now()) && Composes(at)
    requires match ResolveView(reg.Now(), view)
             case None => true
             case Some(x) => FindsInside(at, reg.docs[x.0].entry.tape)
    modifies reg
    ensures Inv(reg.Now())
    ensures ResolveView(old(reg.Now()), view).None? ==> r == Err(InvalidHandle)
    ensures ResolveView(old(reg.Now()), view).Some? ==>
              var (d, i) := ResolveView(old(reg.Now()), view).value;
              var t := old(reg.docs)[d].entry.tape;
              && IsValueStart(t, i)
              && ((forall segments :: !Wellformed(path, validUtf8, segments)) ==> r == Err(InvalidPath))
              && (forall segments :: Wellformed(path, validUtf8, segments) ==>
                    if buildInProgress then r == Err(ParserBusy)
                    else Answers(reg.Now(), r, d, Select(t, at, i, segments)))
    ensures r.Err? ==> reg.Now() == old(reg.Now())
  {
    var resolved := reg.WithResolvedView(view);
    if resolved.Err? {
      return Err(resolved.error);
    }
    var (d, i) := resolved.value;
    ghost var t := reg.docs[d].entry.tape;
    var found := ElementAtPathAll(reg.docs[d].entry.tape, at, i, path, validUtf8, buildInProgress);
    ghost var before := reg.Now();
    if found.Ok? {
      forall n | n in found.value
        ensures n in Nodes(t, i, After(t, i))
      {
        var k :| 0 <= k < |found.value| && found.value[k] == n;
      }
    }
    r := reg.DescendTo(view, None, found);
    if found.Err? {
      return;
    }
    assert ResolveTo(reg.Now(), r.value, d, found.value);
  }
}
