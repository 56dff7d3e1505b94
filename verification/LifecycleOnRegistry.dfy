/**
 The native side of the parser life cycle, read off the registry.

 The life cycle talks about one parser that is idle, busy with one document, or gone, about
 frees that succeed only for that document, and about handles that are fresh.  Each of these is
 a fact about the registry: the first kind about single calls, the second about whole runs in
 which any other calls, on any other parsers, come in between.
 */
module LifecycleOnRegistry {
  import opened Basics
  import opened Handles
  import opened RegistrySpec
  import opened RegistryRuns
  import L = ParserLifecycle

  /** What the registry says about the parser that `parser` names. */
  function NativeOf(s: State, parser: u64): L.Native {
    match FindParser(s, parser)
    case None => L.Freed
    case Some(p) =>
      match s.parsers[p].entry.state
      case Idle => L.Idle
      case Busy(docSlot, docGeneration) => L.Busy(PackHandle(docSlot, docGeneration))
  }

  /** The document `d` belongs to the parser that `parser` names. */
  predicate Belongs(s: State, parser: u64, d: nat) {
    && FindParser(s, parser).Some? && d < |s.docs| && s.docs[d].Occupied?
    && Owns(s, FindParser(s, parser).value, d)
  }

  lemma BusyHandleIsLive(s: State, parser: u64, handle: u64)
    requires Inv(s) && NativeOf(s, parser) == L.Busy(handle)
    ensures handle != 0 && FindDoc(s, handle).Some? && Belongs(s, parser, FindDoc(s, handle).value)
  {
    var p := FindParser(s, parser).value;
    assert ParserSlotOk(s, p);
    var d := s.parsers[p].entry.state.docSlot - 1;
    UnpackPacked(d, s.docs[d].entry.generation);
  }

  lemma OwnLiveHandleIsBusy(s: State, parser: u64, handle: u64)
    requires Inv(s) && FindDoc(s, handle).Some? && Belongs(s, parser, FindDoc(s, handle).value)
    ensures NativeOf(s, parser) == L.Busy(handle)
  {
    PackedUnpacks(handle);
  }

  // ----- Single calls

  /** Native parse: busy and gone parsers refuse, an idle one becomes busy with the handle returned. */
  lemma ParseAsSeen(s: State, parser: u64, input: Bytes, n: Native)
    requires Inv(s) && NativeOk(n)
    ensures var (s', r) := Parse(s, parser, input, n);
            match NativeOf(s, parser)
            case Freed => r == Err(InvalidHandle) && s' == s
            case Busy(_) => r == Err(ParserBusy) && s' == s
            case Idle => NativeOf(s', parser) == if r.Ok? then L.Busy(r.value) else L.Idle
  {
    if NativeOf(s, parser).Idle? {
      ParseMovesArena(s, parser, input, n);
      var (s', r) := Parse(s, parser, input, n);
      if r.Ok? {
        ParseKeepsInv(s, parser, input, n);
        OwnLiveHandleIsBusy(s', parser, r.value);
      }
    }
  }

  lemma FreeParserAsSeen(s: State, parser: u64, nativeRc: Status)
    requires Inv(s)
    ensures var (s', rc) := FreeParser(s, parser, nativeRc);
            match NativeOf(s, parser)
            case Freed => rc == InvalidHandle && s' == s
            case Busy(_) => rc == ParserBusy && s' == s
            case Idle => rc == nativeRc && NativeOf(s', parser) == if rc == StatusOk then L.Freed else L.Idle
  {
  }

  /** Native document-free: the busy handle is freed, and no other free changes what this parser is doing. */
  lemma FreeDocAsSeen(s: State, parser: u64, handle: u64, nativeRc: Status)
    requires Inv(s)
    ensures var (s', rc) := FreeDoc(s, handle, nativeRc);
            && (FindDoc(s, handle).None? ==> rc == InvalidHandle && s' == s)
            && if NativeOf(s, parser) == L.Busy(handle)
               then rc == nativeRc && NativeOf(s', parser) == if rc == StatusOk then L.Idle else L.Busy(handle)
               else NativeOf(s', parser) == NativeOf(s, parser)
  {
    if NativeOf(s, parser) == L.Busy(handle) {
      BusyHandleIsLive(s, parser, handle);
    } else if FindDoc(s, handle).Some? {
      var d := FindDoc(s, handle).value;
      assert DocSlotOk(s, d);
      assert FindParser(FreeDoc(s, handle, nativeRc).0, parser) == FindParser(s, parser);
      if Belongs(s, parser, d) {
        OwnLiveHandleIsBusy(s, parser, handle);
      }
    }
  }

  // ----- Runs

  /** A document that is unchanged still belongs to its parser. */
  lemma SameDocBelongs(s: State, f: State, parser: u64, handle: u64, d: nat)
    requires d < |s.docs| && d < |f.docs| && DocSlotOk(s, d) && DocSlotOk(f, d)
    requires FindDoc(s, handle) == Some(d) && Belongs(s, parser, d) && SameDoc(s.docs[d], f.docs[d])
    ensures FindDoc(f, handle) == Some(d) && Belongs(f, parser, d)
  {
  }

  lemma UnfreedHandleIsBusy(s: State, ops: seq<Op>, parser: u64, handle: u64, d: nat)
    requires Inv(s) && Runs(s, ops) && NativeOf(s, parser) == L.Busy(handle) && FindDoc(s, handle) == Some(d)
    requires DocFrees(s, ops, d) == 0
    ensures NativeOf(Final(s, ops), parser) == L.Busy(handle)
  {
    var f := Final(s, ops);
    BusyHandleIsLive(s, parser, handle);
    LiveDocIsUnchanged(s, ops, d);
    assert DocSlotOk(s, d) && DocSlotOk(f, d);
    SameDocBelongs(s, f, parser, handle, d);
    OwnLiveHandleIsBusy(f, parser, handle);
  }

  lemma FreedHandleIsNotBusy(s: State, ops: seq<Op>, parser: u64, handle: u64, d: nat)
    requires Inv(s) && Runs(s, ops) && FindDoc(s, handle) == Some(d) && 0 < DocFrees(s, ops, d) < DOC_CYCLE
    ensures FindDoc(Final(s, ops), handle) == None && NativeOf(Final(s, ops), parser) != L.Busy(handle)
  {
    FreedDocHandleIsRejected(s, ops, handle);
    if NativeOf(Final(s, ops), parser) == L.Busy(handle) {
      BusyHandleIsLive(Final(s, ops), parser, handle);
      assert false;
    }
  }

  /**
   Whatever calls come after: a document of this parser is what the parser is busy with, or its
   handle is rejected, as long as its slot has not been freed a full cycle of times.
   */
  lemma OwnHandleIsBusyOrRejected(s: State, ops: seq<Op>, parser: u64, handle: u64)
    requires Inv(s) && Runs(s, ops) && NativeOf(s, parser) == L.Busy(handle) && FindDoc(s, handle).Some?
    requires DocFrees(s, ops, FindDoc(s, handle).value) < DOC_CYCLE
    ensures var f := Final(s, ops);
            if DocFrees(s, ops, FindDoc(s, handle).value) == 0 then NativeOf(f, parser) == L.Busy(handle)
            else FindDoc(f, handle) == None && NativeOf(f, parser) != L.Busy(handle)
  {
    var d := FindDoc(s, handle).value;
    if DocFrees(s, ops, d) == 0 {
      UnfreedHandleIsBusy(s, ops, parser, handle, d);
    } else {
      FreedHandleIsNotBusy(s, ops, parser, handle, d);
    }
  }

  /** So freeing an own document succeeds exactly while the parser is busy with it, as the life cycle has it. */
  lemma OwnFreeSucceedsIffBusy(s: State, ops: seq<Op>, parser: u64, handle: u64, ok: bool)
    requires Inv(s) && Runs(s, ops) && NativeOf(s, parser) == L.Busy(handle) && FindDoc(s, handle).Some?
    requires DocFrees(s, ops, FindDoc(s, handle).value) < DOC_CYCLE
    ensures var f := Final(s, ops);
            FreeDoc(f, handle, if ok then StatusOk else Internal).1 == StatusOk <==>
            ok && NativeOf(f, parser) == L.Busy(handle)
  {
    OwnHandleIsBusyOrRejected(s, ops, parser, handle);
    FreeDocAsSeen(Final(s, ops), parser, handle, if ok then StatusOk else Internal);
  }

  /** A parse never returns a handle whose slot is taken or has another generation. */
  lemma NewHandleDiffers(f: State, parser: u64, input: Bytes, n: Native, earlier: u64, d: nat, generation: u32)
    requires Inv(f) && NativeOk(n) && UnpackHandle(earlier) == Ok((d, generation)) && d < |f.docs|
    requires f.docs[d].Occupied? || DocSlotGeneration(f.docs[d]) != generation
    ensures var r := Parse(f, parser, input, n).1; r.Ok? ==> r.value != earlier && r.value != 0
  {
    var r := Parse(f, parser, input, n).1;
    var v := FirstVacant(f.docs, 0);
    if r.Ok? {
      UnpackPacked(v, if v < |f.docs| then f.docs[v].generation else DOC_GENERATION_START);
    }
  }

  /** Once a slot was freed, short of a full cycle of times, it shows another generation. */
  lemma SlotMovedOn(s: State, ops: seq<Op>, d: nat)
    requires Inv(s) && Runs(s, ops) && d < |s.docs| && s.docs[d].Occupied? && DocFrees(s, ops, d) < DOC_CYCLE
    ensures d < |Final(s, ops).docs|
    ensures Final(s, ops).docs[d].Occupied? || DocSlotGeneration(Final(s, ops).docs[d]) != DocSlotGeneration(s.docs[d])
  {
    assert DocSlotOk(s, d);
    DocGenerationOverRun(s, ops, d);
    if DocFrees(s, ops, d) == 0 {
      LiveDocIsUnchanged(s, ops, d);
    } else {
      DocGenerationRecurs(DocSlotGeneration(s.docs[d]), DocFrees(s, ops, d));
    }
  }

  /** A handle that a later parse returns, on any parser, differs from every handle that was live before. */
  lemma NewHandleIsFresh(s: State, ops: seq<Op>, earlier: u64, parser: u64, input: Bytes, n: Native)
    requires Inv(s) && Runs(s, ops) && FindDoc(s, earlier).Some? && NativeOk(n)
    requires DocFrees(s, ops, FindDoc(s, earlier).value) < DOC_CYCLE
    ensures var r := Parse(Final(s, ops), parser, input, n).1; r.Ok? ==> r.value != earlier && r.value != 0
  {
    var d := FindDoc(s, earlier).value;
    SlotMovedOn(s, ops, d);
    NewHandleDiffers(Final(s, ops), parser, input, n, earlier, d, DocSlotGeneration(s.docs[d]));
  }
}
