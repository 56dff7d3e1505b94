/**
 Wildcard path expressions: a hand-written scanner and the grammar it recognises.

 A path is an optional `$` followed by segments.  A segment is a dot and a name, or a bracketed
 body; the bare star in either position is a wildcard, and every other segment is literal.
 The scanner is the exact inverse of printing the segments one after the other.
 */
module PathScanner {
  import opened Basics

  const DOLLAR: Byte := 0x24
  const DOUBLE_QUOTE: Byte := 0x22
  const SINGLE_QUOTE: Byte := 0x27
  const STAR: Byte := 0x2A
  const DOT: Byte := 0x2E
  const ZERO: Byte := 0x30
  const NINE: Byte := 0x39
  const OPEN: Byte := 0x5B
  const CLOSE: Byte := 0x5D

  datatype Segment = Segment(wildcard: bool, path: Bytes)

  // ----- The grammar

  predicate Decimal(s: Bytes) {
    forall k :: 0 <= k < |s| ==> ZERO <= s[k] <= NINE
  }

  predicate LeadingZero(s: Bytes) {
    |s| > 1 && Decimal(s) && s[0] == ZERO
  }

  predicate Quoted(s: Bytes) {
    |s| >= 2 && (s[0] == SINGLE_QUOTE || s[0] == DOUBLE_QUOTE) && s[|s| - 1] == s[0]
  }

  predicate LiteralName(name: Bytes) {
    name != [] && DOT !in name && OPEN !in name && STAR !in name && !LeadingZero(name)
  }

  predicate LiteralBody(body: Bytes) {
    body != [] && CLOSE !in body && STAR !in body && !LeadingZero(body) && (Quoted(body) || Decimal(body))
  }

  predicate DotSegment(path: Bytes) {
    |path| >= 2 && path[0] == DOT && LiteralName(path[1..])
  }

  predicate BracketSegment(path: Bytes) {
    |path| >= 3 && path[0] == OPEN && path[|path| - 1] == CLOSE && LiteralBody(path[1..|path| - 1])
  }

  predicate SegmentOk(s: Segment) {
    if s.wildcard then s.path == [DOT, STAR] || s.path == [OPEN, STAR, CLOSE]
    else DotSegment(s.path) || BracketSegment(s.path)
  }

  predicate SegmentsOk(segments: seq<Segment>) {
    forall k :: 0 <= k < |segments| ==> SegmentOk(segments[k])
  }

  predicate HasWildcard(segments: seq<Segment>) {
    exists k :: 0 <= k < |segments| && segments[k].wildcard
  }

  predicate Grammatical(segments: seq<Segment>) {
    SegmentsOk(segments) && HasWildcard(segments)
  }

  /** The printer: the texts of the segments one after the other. */
  function Print(segments: seq<Segment>): Bytes {
    if segments == [] then [] else segments[0].path + Print(segments[1..])
  }

  predicate Spells(path: Bytes, segments: seq<Segment>) {
    path == Print(segments) || path == [DOLLAR] + Print(segments)
  }

  // ----- What the scanner does, as functions of the unread rest of the path

  function NameLength(s: Bytes): (n: nat)
    ensures n <= |s|
  {
    if s == [] || s[0] == DOT || s[0] == OPEN then 0 else 1 + NameLength(s[1..])
  }

  /** Position of the first `]`, or the length when there is none. */
  function CloseAt(s: Bytes): (n: nat)
    ensures n <= |s|
  {
    if s == [] || s[0] == CLOSE then 0 else 1 + CloseAt(s[1..])
  }

  function ClassifyName(name: Bytes): Option<Segment> {
    if name == [] then None
    else if name == [STAR] then Some(Segment(true, [DOT, STAR]))
    else if STAR in name || LeadingZero(name) then None
    else Some(Segment(false, [DOT] + name))
  }

  function ClassifyBody(body: Bytes): Option<Segment> {
    if body == [] then None
    else if body == [STAR] then Some(Segment(true, [OPEN, STAR, CLOSE]))
    else if STAR in body || (!Quoted(body) && !Decimal(body)) || LeadingZero(body) then None
    else Some(Segment(false, [OPEN] + body + [CLOSE]))
  }

  function NextSegment(s: Bytes): Option<Segment>
    requires s != []
  {
    if s[0] == DOT then ClassifyName(s[1..][..NameLength(s[1..])])
    else if s[0] == OPEN then
      var close := CloseAt(s[1..]);
      if close == |s[1..]| then None else ClassifyBody(s[1..][..close])
    else None
  }

  lemma NextSegmentFits(s: Bytes)
    requires s != [] && NextSegment(s).Some?
    ensures var seg := NextSegment(s).value; 2 <= |seg.path| && seg.path <= s
  {
    var rest := s[1..];
    if s[0] == DOT {
      assert s[..1 + NameLength(rest)] == [DOT] + rest[..NameLength(rest)];
    } else {
      CloseIsFirst(rest);
      assert s[..2 + CloseAt(rest)] == [OPEN] + rest[..CloseAt(rest)] + [CLOSE];
    }
  }

  function Scan(s: Bytes): Option<seq<Segment>> {
    if s == [] then Some([])
    else
      match NextSegment(s)
      case None => None
      case Some(seg) => NextSegmentFits(s); Push(seg, Scan(s[|seg.path|..]))
  }

  function Push(seg: Segment, rest: Option<seq<Segment>>): Option<seq<Segment>> {
    match rest
    case None => None
    case Some(segments) => Some([seg] + segments)
  }

  // ----- The scanner inverts the printer

  lemma {:induction false} CloseIsFirst(s: Bytes)
    ensures CLOSE !in s[..CloseAt(s)]
    ensures CloseAt(s) < |s| ==> s[CloseAt(s)] == CLOSE
  {
    if s != [] && s[0] != CLOSE {
      CloseIsFirst(s[1..]);
      assert s[..CloseAt(s)] == [s[0]] + s[1..][..CloseAt(s[1..])];
    }
  }

  lemma {:induction false} CloseIsThere(s: Bytes, n: nat)
    requires n < |s| && s[n] == CLOSE && CLOSE !in s[..n]
    ensures CloseAt(s) == n
  {
    if n > 0 {
      assert s[0] == s[..n][0];
      assert s[1..][..n - 1] == s[..n][1..];
      CloseIsThere(s[1..], n - 1);
    }
  }

  lemma {:induction false} NameStops(s: Bytes)
    ensures DOT !in s[..NameLength(s)] && OPEN !in s[..NameLength(s)]
    ensures NameLength(s) < |s| ==> s[NameLength(s)] == DOT || s[NameLength(s)] == OPEN
  {
    if s != [] && s[0] != DOT && s[0] != OPEN {
      NameStops(s[1..]);
      assert s[..NameLength(s)] == [s[0]] + s[1..][..NameLength(s[1..])];
    }
  }

  lemma {:induction false} NameIsThere(s: Bytes, n: nat)
    requires n <= |s| && DOT !in s[..n] && OPEN !in s[..n] && (n < |s| ==> s[n] == DOT || s[n] == OPEN)
    ensures NameLength(s) == n
  {
    if n > 0 {
      assert s[0] == s[..n][0];
      assert s[1..][..n - 1] == s[..n][1..];
      NameIsThere(s[1..], n - 1);
    }
  }

  lemma ClassifiedNameIsGrammatical(name: Bytes)
    requires DOT !in name && OPEN !in name
    ensures ClassifyName(name).Some? ==> SegmentOk(ClassifyName(name).value)
  {
    assert ([DOT] + name)[1..] == name;
  }

  lemma ClassifiedBodyIsGrammatical(body: Bytes)
    requires CLOSE !in body
    ensures ClassifyBody(body).Some? ==> SegmentOk(ClassifyBody(body).value)
  {
    var path := [OPEN] + body + [CLOSE];
    assert path[1..|path| - 1] == body;
  }

  lemma NextSegmentIsGrammatical(s: Bytes)
    requires s != [] && NextSegment(s).Some?
    ensures SegmentOk(NextSegment(s).value)
  {
    var rest := s[1..];
    if s[0] == DOT {
      NameStops(rest);
      ClassifiedNameIsGrammatical(rest[..NameLength(rest)]);
    } else {
      CloseIsFirst(rest);
      ClassifiedBodyIsGrammatical(rest[..CloseAt(rest)]);
    }
  }

  /** What may follow a segment: the end of the path or another segment. */
  predicate Follows(rest: Bytes) {
    rest != [] ==> rest[0] == DOT || rest[0] == OPEN
  }

  lemma NextName(name: Bytes, rest: Bytes)
    requires DOT !in name && OPEN !in name && Follows(rest)
    ensures NextSegment([DOT] + name + rest) == ClassifyName(name)
  {
    var s := [DOT] + name + rest;
    assert s[1..] == name + rest && (name + rest)[..|name|] == name;
    NameIsThere(name + rest, |name|);
  }

  lemma NextBody(body: Bytes, rest: Bytes)
    requires CLOSE !in body
    ensures NextSegment([OPEN] + body + [CLOSE] + rest) == ClassifyBody(body)
  {
    var s, tail := [OPEN] + body + [CLOSE] + rest, body + [CLOSE] + rest;
    assert s[1..] == tail && tail[..|body|] == body;
    CloseIsThere(tail, |body|);
  }

  /** A grammatical segment in front of something that may follow it is the one the scanner takes. */
  lemma NextSegmentIsUnique(seg: Segment, rest: Bytes)
    requires SegmentOk(seg) && Follows(rest)
    ensures NextSegment(seg.path + rest) == Some(seg)
  {
    if seg.path[0] == DOT {
      var name := seg.path[1..];
      NextName(name, rest);
      assert seg.path == [DOT] + name;
    } else {
      var body := seg.path[1..|seg.path| - 1];
      NextBody(body, rest);
      assert seg.path == [OPEN] + body + [CLOSE];
    }
  }

  lemma PrintFollows(segments: seq<Segment>)
    requires SegmentsOk(segments)
    ensures Follows(Print(segments))
  {
    if segments != [] {
      assert SegmentOk(segments[0]);
    }
  }

  lemma PrintCons(seg: Segment, rest: seq<Segment>)
    ensures Print([seg] + rest) == seg.path + Print(rest)
    ensures SegmentsOk([seg] + rest) <==> SegmentOk(seg) && SegmentsOk(rest)
  {
    var all := [seg] + rest;
    assert all[1..] == rest;
    assert all[0] == seg && forall k :: 0 <= k < |rest| ==> rest[k] == all[k + 1];
  }

  lemma ScanSplits(s: Bytes) returns (seg: Segment, rest: Bytes)
    requires s != [] && Scan(s).Some?
    ensures SegmentOk(seg) && s == seg.path + rest && |rest| < |s|
    ensures Scan(rest).Some? && Scan(s).value == [seg] + Scan(rest).value
  {
    seg := NextSegment(s).value;
    NextSegmentFits(s);
    NextSegmentIsGrammatical(s);
    rest := s[|seg.path|..];
  }

  lemma {:induction false} ScanIsGrammatical(s: Bytes)
    requires Scan(s).Some?
    ensures SegmentsOk(Scan(s).value) && Print(Scan(s).value) == s
    decreases |s|
  {
    if s != [] {
      var seg, rest := ScanSplits(s);
      ScanIsGrammatical(rest);
      PrintCons(seg, Scan(rest).value);
    }
  }

  lemma ScanCons(seg: Segment, rest: Bytes)
    requires SegmentOk(seg) && Follows(rest)
    ensures Scan(seg.path + rest) == Push(seg, Scan(rest))
  {
    NextSegmentIsUnique(seg, rest);
    assert (seg.path + rest)[|seg.path|..] == rest;
  }

  lemma {:induction false} ScanInvertsPrint(segments: seq<Segment>)
    requires SegmentsOk(segments)
    ensures Scan(Print(segments)) == Some(segments)
    decreases |segments|
  {
    if segments != [] {
      var seg, rest := segments[0], segments[1..];
      assert segments == [seg] + rest;
      PrintCons(seg, rest);
      PrintFollows(rest);
      ScanCons(seg, Print(rest));
      ScanInvertsPrint(rest);
    }
  }

  /** The path without its leading `$`. */
  function Body(path: Bytes): Bytes {
    if path != [] && path[0] == DOLLAR then path[1..] else path
  }

  lemma SpelledScans(path: Bytes, segments: seq<Segment>)
    requires SegmentsOk(segments) && segments != [] && Spells(path, segments)
    ensures path != [] && Body(path) == Print(segments) != [] && Scan(Body(path)) == Some(segments)
  {
    ScanInvertsPrint(segments);
    PrintFollows(segments);
    assert SegmentOk(segments[0]);
    assert ([DOLLAR] + Print(segments))[1..] == Print(segments);
  }

  lemma ScannedSpells(path: Bytes, segments: seq<Segment>)
    requires Body(path) != [] && Scan(Body(path)) == Some(segments)
    ensures SegmentsOk(segments) && segments != [] && Spells(path, segments)
  {
    ScanIsGrammatical(Body(path));
    assert path == Body(path) || path == [DOLLAR] + Body(path);
  }

  /** The scanner and the grammar agree on which segments a path spells. */
  lemma SpellsIffScans(path: Bytes, segments: seq<Segment>)
    ensures SegmentsOk(segments) && segments != [] && Spells(path, segments) <==>
            path != [] && Body(path) != [] && Scan(Body(path)) == Some(segments)
  {
    if SegmentsOk(segments) && segments != [] && Spells(path, segments) {
      SpelledScans(path, segments);
    }
    if Body(path) != [] && Scan(Body(path)) == Some(segments) {
      ScannedSpells(path, segments);
    }
  }

  // ----- The scanner itself

  method FindClose(path: Bytes, from: nat) returns (close: nat)
    requires from <= |path|
    ensures from <= close <= |path| && close == from + CloseAt(path[from..])
  {
    close := from;
    while close < |path| && path[close] != CLOSE
      invariant from <= close <= |path|
      invariant from + CloseAt(path[from..]) == close + CloseAt(path[close..])
    {
      assert path[close..][1..] == path[close + 1..];
      close := close + 1;
    }
  }

  method FindNameEnd(path: Bytes, start: nat) returns (index: nat)
    requires start <= |path|
    ensures start <= index <= |path| && index == start + NameLength(path[start..])
  {
    index := start;
    while index < |path| && path[index] != DOT && path[index] != OPEN
      invariant start <= index <= |path|
      invariant start + NameLength(path[start..]) == index + NameLength(path[index..])
    {
      assert path[index..][1..] == path[index + 1..];
      index := index + 1;
    }
  }

  /** The segments scanned so far, in front of what the rest of the path scans to. */
  function Ahead(segments: seq<Segment>, rest: Option<seq<Segment>>): Option<seq<Segment>> {
    match rest
    case None => None
    case Some(more) => Some(segments + more)
  }

  lemma AheadPushes(segments: seq<Segment>, seg: Segment, rest: Option<seq<Segment>>)
    ensures Ahead(segments, Push(seg, rest)) == Ahead(segments + [seg], rest)
  {
    if rest.Some? {
      assert segments + ([seg] + rest.value) == (segments + [seg]) + rest.value;
    }
  }

  lemma AheadSteps(segments: seq<Segment>, s: Bytes, seg: Segment)
    requires s != [] && NextSegment(s) == Some(seg)
    ensures 2 <= |seg.path| <= |s|
    ensures Ahead(segments, Scan(s)) == Ahead(segments + [seg], Scan(s[|seg.path|..]))
  {
    NextSegmentFits(s);
    AheadPushes(segments, seg, Scan(s[|seg.path|..]));
  }

  lemma AheadOfNothing(rest: Option<seq<Segment>>)
    ensures Ahead([], rest) == rest
  {
    if rest.Some? {
      assert [] + rest.value == rest.value;
    }
  }

  lemma WildcardSeen(segments: seq<Segment>, segment: Segment)
    ensures HasWildcard(segments + [segment]) <==> HasWildcard(segments) || segment.wildcard
  {
    var all := segments + [segment];
    assert all[|segments|] == segment;
    if k :| 0 <= k < |segments| && segments[k].wildcard {
      assert all[k].wildcard;
    }
  }

  /** The segment at `index`, which the source's loop body recognises, and the position behind it. */
  method ScanSegment(path: Bytes, index: nat) returns (r: Option<(Segment, nat)>)
    requires index < |path|
    ensures NextSegment(path[index..]) == (match r case None => None case Some(x) => Some(x.0))
    ensures r.Some? ==> r.value.1 == index + |r.value.0.path|
  {
    assert path[index..][1..] == path[index + 1..];
    if path[index] == DOT {
      var end := FindNameEnd(path, index + 1);
      var segment := path[index + 1..end];
      assert segment == path[index + 1..][..end - index - 1];
      if segment == [] {
        return None;
      }
      if segment == [STAR] {
        return Some((Segment(true, [DOT, STAR]), end));
      }
      if STAR in segment {
        return None;
      }
      if Decimal(segment) && |segment| > 1 && segment[0] == ZERO {
        return None;
      }
      return Some((Segment(false, [DOT] + segment), end));
    }
    if path[index] != OPEN {
      return None;
    }
    var close := FindClose(path, index + 1);
    if close == |path| {
      return None;
    }
    var segment := path[index + 1..close];
    assert segment == path[index + 1..][..close - index - 1];
    if segment == [] {
      return None;
    }
    if segment == [STAR] {
      return Some((Segment(true, [OPEN, STAR, CLOSE]), close + 1));
    }
    if STAR in segment {
      return None;
    }
    var quotedKey := |segment| >= 2 && (segment[0] == SINGLE_QUOTE || segment[0] == DOUBLE_QUOTE)
                     && segment[|segment| - 1] == segment[0];
    if (!quotedKey && !Decimal(segment)) || (Decimal(segment) && |segment| > 1 && segment[0] == ZERO) {
      return None;
    }
    CloseIsFirst(path[index + 1..]);
    assert path[index..close + 1] == [OPEN] + segment + [CLOSE];
    return Some((Segment(false, path[index..close + 1]), close + 1));
  }

  /**
   Classifies a whole expression.  It accepts exactly the paths that spell a grammatical list of
   segments, with or without `$`, and returns that list, which is the only one.
   */
  method ClassifyWildcardPath(path: Bytes, validUtf8: bool) returns (ok: bool, segments: seq<Segment>)
    ensures ok ==> Grammatical(segments) && Spells(path, segments)
    ensures forall other :: Grammatical(other) && Spells(path, other) && validUtf8 ==> ok && segments == other
    ensures !validUtf8 ==> !ok
  {
    ghost var body := Body(path);
    forall other: seq<Segment>
      ensures Grammatical(other) && Spells(path, other) <==>
              path != [] && body != [] && Scan(body) == Some(other) && HasWildcard(other)
    {
      SpellsIffScans(path, other);
    }
    segments := [];
    if path == [] || !validUtf8 {
      return false, segments;
    }
    var index := if path[0] == DOLLAR then 1 else 0;
    assert path[index..] == body;
    if index == |path| || (path[index] != DOT && path[index] != OPEN) {
      return false, segments;
    }
    var sawWildcard := false;
    AheadOfNothing(Scan(body));
    while index < |path|
      invariant index <= |path|
      invariant Ahead(segments, Scan(path[index..])) == Scan(body)
      invariant sawWildcard <==> HasWildcard(segments)
      decreases |path| - index
    {
      var next := ScanSegment(path, index);
      if next.None? {
        return false, segments;
      }
      var (segment, end) := next.value;
      AheadSteps(segments, path[index..], segment);
      assert path[index..][|segment.path|..] == path[end..];
      WildcardSeen(segments, segment);
      segments := segments + [segment];
      sawWildcard := sawWildcard || segment.wildcard;
      index := end;
    }
    assert segments + [] == segments;
    return sawWildcard, segments;
  }
}
