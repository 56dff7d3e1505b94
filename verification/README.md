# pure-simdjson: verified models of the handle registry, the materializers and the protocols

pure-simdjson is a Go package over a Rust and C++ library that owns a vendored SIMD JSON parser.
The parser turns a buffer into a tape of words; everything this project models sits on top of
that tape:

- the **registry** (Rust), which hands out generational 64-bit handles for parsers and
  documents, moves the input arena between them, issues views of tape elements and leases for
  iterators, and checks whatever bits a caller passes back;
- the **two materializers** (C++ and Go), which build the same Go value from a subtree, one by a
  stream of preorder frames, the other by walking leased iterators;
- **wildcard paths** (C++): a hand-written scanner and a batched traversal;
- **shared-state protocols** (Go and C++): kernel selection, the parser/document life cycle with
  finalizers, allocation telemetry;
- **numbers and diagnostics**: the exact-float test, and where a parse error is reported to be.

The upstream parser is trusted to produce well-formed tapes and to answer lookups with elements
inside the receiver.  `Tape.dfy` says what well-formed means: containers are bracketed by a
start word that carries the index one past the end word, object keys are one word wide, other
scalars have any positive width and their payload words may hold any bits.

## How the pieces fit

| file | what it holds |
|---|---|
| `Basics.dfy`, `Tape.dfy`, `Json.dfy` | machine integers and statuses; the tape; JSON trees, their tapes and their Go values |
| `Frames.dfy`, `Encoder.dfy`, `FastPath.dfy` | frames and their decoder; the native encoder with back-patching; encoder and decoder composed, descendant slices |
| `Handles.dfy`, `RegistrySpec.dfy`, `Registry.dfy`, `RegistryRuns.dfy` | handle packing and generations; the registry as transitions with an invariant; the mutable registry proved equal to them; theorems over all runs |
| `RegistryAnswers.dfy`, `Issued.dfy` | what replies are made of: the bytes native code reads, the limits a parser was registered with; only what was handed out is accepted |
| `Materializers.dfy` | the sticky Go iterators, the accessor walk over the mutable registry, and the agreement of both materializers |
| `PathScanner.dfy`, `PathTraversal.dfy`, `PathLookup.dfy`, `WildcardViews.dfy` | the path grammar, its printer and scanner; batched traversal against segment-by-segment meaning; a lookup that meets its assumptions; the wildcard call through the registry |
| `KernelSelection.dfy`, `ParserLifecycle.dfy`, `AllocTelemetry.dfy` | step relations over all interleavings, their invariants, and the objects whose critical sections they are |
| `KernelHistory.dfy`, `ClosedDocuments.dfy`, `AllocHistory.dfy`, `LifecycleOnRegistry.dfy` | told from the actions of a run: the implementation installed, the life of one document, the telemetry's counters; what the life cycle takes for granted, proved of the registry |
| `ExactFloat.dfy`, `Diagnostics.dfy` | binary64 representability; replay passes and error offsets |

The registry's mutable class changes its slot vectors in place, and every method's contract
equates the new state with a transition of `RegistrySpec`; the theorems of `RegistryRuns` speak
about arbitrary sequences of those transitions, with arbitrary handles, views and iterator
structs.  Branches that the source keeps for states that cannot happen end in `assert false`.
Native accessors are partial functions, defined only where an element starts, so that a call
with any other tape index would not verify.

Three statements one might expect are false, and the files say exactly when they hold:

- The Go and native selection locks are not equal.  With no utility under way they are equal if
  and only if a utility passed the native gate, or a constructor succeeded, or pools were created
  and constructors failed both or neither (`QuietLocksAgree`).  A pool alone locks Go only
  (`PoolLocksGoOnly`), a failed constructor alone native code only
  (`FailedConstructorLocksNativeOnly`).
- `live_bytes` is the sum of the live records if and only if no insertion after the last reset
  belongs to an allocation made before a reset (`TotalsAreExactIffTraceIsNotLate`, with a run in
  `LateInsertionLeavesBytes`).
- An open, unmarked parser whose mutex is free is natively idle if and only if no root lookup
  failed together with the free that follows it (`UnmarkedParserIsIdle`, with a run in
  `OrphanedDocumentStaysBusy`).

## Model

| member | source | states |
|---|---|---|
| Tape.AfterIndex | src/native/simdjson_bridge.cpp:1760-1773 | the index behind an element lies strictly behind it and on the tape |
| Tape.IterBounds | src/native/simdjson_bridge.cpp:1775-1819 | the bounds run from the first word inside the container to its end word, with exactly the children between |
| Tape.NodesAreStarts | src/native/simdjson_bridge.cpp:1791-1793 | every element or key position of a subtree is the start of a value that stays inside the subtree, and never a payload word or an end marker |
| Json.ReadLayout | src/native/simdjson_bridge.cpp:1760-1819 | the tape words of any JSON tree, with any payload in wide scalars, are well formed and read back as that tree |
| Json.DocumentReadsBack | src/native/simdjson_bridge.cpp:1760-1819 | every JSON tree has a document tape whose root at index 1 reads back as the tree |
| Json.LastDuplicateWins | materializer_fastpath.go:110-121 | a key of the Go map has the value of the last field that carries it |
| Json.EveryKeyHasALast | materializer_fastpath.go:110-121 | no key is in the Go map without such a field |
| Json.GoValueIsMeaning | materializer_fastpath.go:54-125 | a tree has exactly one Go value: scalars as they are, one slice element per item in order, one map entry per key with the value of its last field |
| Frames.DecodeFrame | materializer_fastpath.go:142-208 | decoding moves strictly forward and never past the last frame |
| Frames.DecodeListing | materializer_fastpath.go:142-208 | the preorder listing of a valid tree decodes to that tree's value, wherever it stands, and the decoder stops right behind it |
| Frames.DecodedIsListing | materializer_fastpath.go:142-208 | whatever the decoder accepts is the listing of some valid tree with the value returned |
| Frames.ListingIsUnique | materializer_fastpath.go:142-208 | two valid trees with the same frames are the same tree |
| Frames.DecoderAcceptsExactlyListings | materializer_fastpath.go:127-140 | arbitrary frames decode if and only if they list one valid tree, with its value |
| Frames.BuildAnyFromFrames | materializer_fastpath.go:127-140 | the decoder's result on arbitrary frames: success exactly on listings, with the listed tree's value |
| Frames.BuildAnyFromFrame | materializer_fastpath.go:142-208 | the loops over child counts compute the recursive decoding, error positions included |
| Encoder.HeightIsDepthReached | src/native/simdjson_bridge.cpp:1078-1088 | the height of a tree is at least d exactly when some element lies d levels down |
| Encoder.ProgressStep | src/native/simdjson_bridge.cpp:1114-1126 | one more child leaves the frames of the children so far in place |
| Encoder.BackPatch | src/native/simdjson_bridge.cpp:1100-1155 | writing the count into the container's own frame afterwards gives the container's listing and changes no other frame |
| Encoder.NativeDoc.AppendMaterializeFrame | src/native/simdjson_bridge.cpp:1078-1221 | appends the preorder listing of the element's tree, or stops with the status that says which limit was met |
| Encoder.NativeDoc.AppendArray | src/native/simdjson_bridge.cpp:1100-1128 | the same for an array: push, recurse, back-patch equals the recursive listing |
| Encoder.NativeDoc.AppendObject | src/native/simdjson_bridge.cpp:1129-1156 | the same for an object, each child frame carrying its key |
| Encoder.NativeDoc.MaterializeBuild | src/native/simdjson_bridge.cpp:2044-2085 | success exactly within the depth and count limits; DEPTH_LIMIT exactly when an element lies 1024 or more levels down (counts fitting); failure leaves no frames and the guard as it was; a build in progress is refused |
| FastPath.TreeDenotes | src/native/simdjson_bridge.cpp:1078-1221 | the frame tree of a tape value denotes the Go value of the JSON tree it spells |
| FastPath.TreeIsValid | src/native/simdjson_bridge.cpp:1078-1221 | built frames carry matching child counts and no missing required span |
| FastPath.FramesDecodeToValue | materializer_fastpath.go:43-48 | frames built for any element decode to the Go value of its tree |
| FastPath.DescendantSlice | src/native/simdjson_bridge.cpp:1078-1221 | a descendant's frames are a contiguous run of its ancestor's frames |
| FastPath.DescendantFrames | src/native/simdjson_bridge.cpp:2044-2085 | frames built for the descendant are that run with only the first key cleared |
| Handles.UnpackPacked | src/runtime/registry.rs:198-212 | a packed slot and generation unpack again, and the handle is not 0 |
| Handles.PackedUnpacks | src/runtime/registry.rs:198-212 | every number that unpacks is the packing of what it unpacks to |
| Handles.GenerationsKeepParity | src/runtime/registry.rs:165-186 | parser generations stay odd, document generations even and nonzero, through the 32-bit wrap |
| Handles.HandlesNeverCollide | src/runtime/registry.rs:165-212 | no parser handle equals a document handle |
| Handles.ParserGenerationRecurs | src/runtime/registry.rs:165-181 | a parser slot shows a generation again after exactly 2^31 frees, not before |
| Handles.DocGenerationRecurs | src/runtime/registry.rs:183-186 | a document slot shows a generation again after exactly 2^31 - 1 frees, not before |
| Handles.ProbeFindsUnused | src/runtime/registry.rs:330-360 | a found lease id is unused and not 0 |
| Handles.FreshLeaseExistsIffRoom | src/runtime/registry.rs:330-360 | from any next id and any lease map without id 0, a lease is found if and only if fewer than 2^32 - 1 are held |
| RegistrySpec.FindParser | src/runtime/registry.rs:306-315 | a handle finds an occupied slot with its generation |
| RegistrySpec.FindDoc | src/runtime/registry.rs:317-326 | the same for documents |
| RegistrySpec.FirstVacant | src/runtime/registry.rs:217-304 | allocation takes the lowest vacant slot |
| RegistrySpec.ResolvedIndexIsStart | src/runtime/registry.rs:714-767 | a view with arbitrary bits resolves only to the start of an element or key of a live document, inside the root |
| RegistrySpec.DescendedViewsResolve | src/runtime/registry.rs:769-787 | a view handed out for a found element resolves to that element |
| RegistrySpec.FindLease | src/runtime/registry.rs:1010-1039 | an iterator struct names a lease only with its exact tag and both bounds |
| RegistrySpec.LeaseChildIsStart | src/runtime/registry.rs:1063-1190 | the position an accepted iterator stands on starts an element (a key and a value, for objects), and stepping over it stays within the end |
| RegistrySpec.BoundsAreLease | src/native/simdjson_bridge.cpp:1775-1819 | a container's bounds form a lease over all its children |
| RegistrySpec.NewParserKeepsInv | src/runtime/registry.rs:217-255 | registration keeps the registry invariant |
| RegistrySpec.FreeParserKeepsInv | src/runtime/registry.rs:445-471 | freeing a parser keeps it, also when native free fails or the parser is Busy |
| RegistrySpec.ParseKeepsInv | src/runtime/registry.rs:473-584 | a parse keeps it on every exit |
| RegistrySpec.FreeDocKeepsInv | src/runtime/registry.rs:624-683 | freeing a document keeps it |
| RegistrySpec.DescendKeepsInv | src/runtime/registry.rs:1192-1317 | recording found elements keeps it |
| RegistrySpec.NewIterKeepsInv | src/runtime/registry.rs:1041-1061 | taking a lease keeps it |
| RegistrySpec.NextIterKeepsInv | src/runtime/registry.rs:1063-1190 | advancing a lease keeps it |
| RegistryRuns.BusyAndLiveAreInBijection | src/runtime/registry.rs:445-683 | after any calls with any arguments, Busy parsers and live documents name one another, slot and generation |
| RegistryRuns.LiveHandlesAreDisjoint | src/runtime/registry.rs:198-327 | no number is both a live parser and a live document, and 0 is neither |
| RegistryRuns.IssuedHandlesAreLive | src/runtime/registry.rs:217-304 | an issued handle is not 0 and finds the slot it was issued for |
| RegistryRuns.DocGenerationOverRun | src/runtime/registry.rs:624-683 | over any run a document slot's generation depends only on how often the slot was freed |
| RegistryRuns.ParserGenerationOverRun | src/runtime/registry.rs:445-471 | the same for parser slots |
| RegistryRuns.FreedDocHandleIsRejected | src/runtime/registry.rs:183-212 | a freed document handle is rejected until its slot has been freed 2^31 - 1 times, counting its own free |
| RegistryRuns.FreedParserHandleIsRejected | src/runtime/registry.rs:178-212 | a freed parser handle is rejected until its slot has been freed 2^31 times |
| RegistryRuns.LiveDocIsUnchanged | src/runtime/registry.rs:533-563 | until it is freed, a document keeps tape, owner and input bytes, whatever else is called |
| RegistryRuns.ParseMovesArena | src/runtime/registry.rs:484-563 | where the arena is after a parse: untouched by an early rejection, with the new document, or back with the Idle parser and padded, exactly when the padding was usable |
| RegistryRuns.ArenaReturns | src/runtime/registry.rs:665-683 | the bytes a document was parsed from come back to its parser when it is freed, however late |
| RegistryRuns.StaleIteratorIsRejected | src/runtime/registry.rs:362-394 | an iterator copy that was overtaken is rejected for the rest of the document's life |
| RegistryRuns.AdvancedIteratorIsStale | src/runtime/registry.rs:1063-1190 | advancing overtakes every equal copy, and moves the lease towards its end |
| RegistryRuns.DoneStaysDone | src/runtime/registry.rs:1063-1075 | an exhausted iterator keeps answering done, without error, for the rest of the document's life |
| RegistryRuns.LeaseVisitsInOrder | src/runtime/registry.rs:1063-1190 | whatever calls come between, the children handed out and those left make up the container's children, in document order, each once |
| RegistryRuns.FreshLeaseCoversContainer | src/runtime/registry.rs:1041-1061 | a new lease has a new id and covers all children of its container |
| RegistryAnswers.ParseReadsPaddedInput | src/runtime/registry.rs:502-563 | a parse past its early checks gives native code the input followed by zeros; native failures come back as they are, and otherwise the returned handle finds a document with the tape, root and bytes of that very parse, unless every slot is taken |
| RegistryAnswers.ReplyIgnoresArena | src/runtime/registry.rs:502-516 | the reply is the same whatever bytes the arena held before |
| RegistryAnswers.CapacityIsTheRegisteredOne | src/runtime/registry.rs:217-255 | however much later, a parse on an issued handle of an idle parser is refused for capacity exactly above the capacity it was registered with |
| RegistryAnswers.FreeDocAnswers | src/runtime/registry.rs:624-683 | a found document is freed exactly if native free succeeds; its handle is dead and its owner idle from then on |
| RegistryAnswers.DescendAnswers | src/runtime/registry.rs:1192-1205 | on a container of the right kind the reply is the upstream answer, on another kind WrongType, and on a view that does not resolve InvalidHandle |
| RegistryAnswers.NewIterAnswers | src/runtime/registry.rs:1041-1061 | an iterator is given exactly for a container of its kind with a lease left; each refusal has its own status |
| Issued.OnlyIssuedViewsResolve | src/runtime/registry.rs:714-767 | over any run, a view resolves only if an earlier call handed it out, bit for bit up to the kind hint |
| Issued.IssuedViewsKeepResolving | src/runtime/registry.rs:714-787 | a view handed out resolves, always to the same element, until its document is freed |
| Issued.OnlyIssuedItersAreAccepted | src/runtime/registry.rs:1010-1039 | over any run, an iterator struct is accepted only if an earlier call handed it out, bit for bit |
| Registry.Registry.constructor | src/runtime/registry.rs:82-90 | the empty registry satisfies the invariant |
| Registry.Registry.AllocParser | src/runtime/registry.rs:217-255 | the scanning loop performs the registration transition |
| Registry.Registry.AllocDoc | src/runtime/registry.rs:257-304 | a document goes into the first vacant slot with that slot's generation, or a new one |
| Registry.Registry.ParserFree | src/runtime/registry.rs:445-471 | performs exactly the parser-free transition |
| Registry.Registry.FillArena | src/runtime/registry.rs:502-509 | whatever the arena held, the buffer is the input followed by zeros |
| Registry.Registry.ParserParse | src/runtime/registry.rs:473-584 | performs exactly the parse transition, of which `RegistryAnswers.ParseReadsPaddedInput` says what native code reads; the parser-vanished branch cannot be reached |
| Registry.Registry.DocFree | src/runtime/registry.rs:624-683 | performs exactly the document-free transition; the owner-mismatch exits cannot be reached |
| Registry.Registry.DocRoot | src/runtime/registry.rs:698-711 | a root view exactly for live documents; it resolves to index 1 and carries the root's kind |
| Registry.Registry.WithResolvedView | src/runtime/registry.rs:732-767 | accepts exactly the views that resolve, and passes native code an element start |
| Registry.Registry.EncodeDescendantView | src/runtime/registry.rs:769-787 | records the element and returns its view; the range rejection cannot be reached |
| Registry.Registry.DescendTo | src/runtime/registry.rs:1192-1317 | every returned view resolves to the element found, in order |
| Registry.Registry.AllocIterLease | src/runtime/registry.rs:330-360 | the probing loop finds the first free id of the cycle, or none exactly when the map is full |
| Registry.Registry.ArrayIterNew | src/runtime/registry.rs:1041-1061 | performs exactly the array lease transition |
| Registry.Registry.ObjectIterNew | src/runtime/registry.rs:1109-1129 | performs exactly the object lease transition |
| Registry.Registry.ArrayIterNext | src/runtime/registry.rs:1063-1107 | performs exactly the array step; its internal-error exits cannot be reached |
| Registry.Registry.ObjectIterNext | src/runtime/registry.rs:1131-1190 | performs exactly the object step; its internal-error exits cannot be reached |
| Materializers.GetScalar | element.go:159-333 | an element of the accessor's own kind yields its value; on any other kind the upstream answer passes through |
| Materializers.ArrayIter.Next | iterator.go:33-62 | steps the lease; done or an error clears the current value, stays, and touches nothing any more |
| Materializers.ObjectIter.Next | iterator.go:82-125 | the same, with the key copied from the key word and cleared at the end |
| Materializers.NextIterHandsOut | src/runtime/registry.rs:1063-1190 | the views a step hands out resolve to the child (and key) the lease stood on |
| Materializers.ArrayWalkVisits | materializer_fastpath.go:93-99 | building one child moves the walk past it, or proves the whole walk fails |
| Materializers.ObjectWalkVisits | materializer_fastpath.go:111-117 | the same for a field, overwriting an earlier duplicate key |
| Materializers.CollectItems | materializer_fastpath.go:91-103 | the loop yields the Go slice of all children |
| Materializers.CollectFields | materializer_fastpath.go:109-121 | the loop yields the Go map of all fields |
| Materializers.MaterializeViaAccessors | materializer_fastpath.go:54-125 | yields the Go value of the tree the tape spells, taking one lease per container, or an internal error exactly when the leases do not fit |
| Materializers.LeasesFit | src/runtime/registry.rs:330-360 | no document ever holds more leases than there are nonzero 32-bit ids |
| Materializers.MaterializeUnderLock | materializer_fastpath.go:38-49 | whichever path runs on an open document, a success is the Go value of the element's tree; the frame path changes nothing in the registry |
| Materializers.FastMaterializeElement | materializer_fastpath.go:15-49 | a closed document and one whose mutex is held are refused, each with its own error and without effect; otherwise a success is the Go value of the element's tree, and each path succeeds exactly within its limits |
| Materializers.MaterializersAgree | materializer_fastpath.go:15-125 | for every JSON tree and every element of it, the decoded frames equal the accessor walk, and the root's value is the tree's |
| PathScanner.ScanIsGrammatical | src/native/simdjson_bridge.cpp:214-302 | accepted segments are grammatical and their texts spell the scanned text |
| PathScanner.ScanInvertsPrint | src/native/simdjson_bridge.cpp:214-302 | printing any grammatical segments and scanning gives them back |
| PathScanner.NextSegmentIsUnique | src/native/simdjson_bridge.cpp:230-299 | in front of anything that may follow it, a grammatical segment is the one the scanner takes |
| PathScanner.SpellsIffScans | src/native/simdjson_bridge.cpp:214-302 | a path, with or without `$`, spells segments exactly when it scans to them |
| PathScanner.ScanSegment | src/native/simdjson_bridge.cpp:230-299 | the index-advancing loops recognise the next segment and stop right behind it |
| PathScanner.ClassifyWildcardPath | src/native/simdjson_bridge.cpp:214-302 | accepts exactly the valid UTF-8 paths that spell grammatical segments with a wildcard, and returns those segments, which are unique |
| PathTraversal.InOrderIsIncreasing | src/native/simdjson_bridge.cpp:2024-2039 | matches in order are strictly increasing and their subtrees disjoint |
| PathTraversal.ChildrenInOrder | src/native/simdjson_bridge.cpp:352-376 | the children of an element are in document order inside it |
| PathTraversal.SelectionInOrder | src/native/simdjson_bridge.cpp:307-380 | what any segments select is in document order, duplicate-free and inside the receiver |
| PathTraversal.SelectionIsBelow | src/native/simdjson_bridge.cpp:307-380 | every match is the receiver or an element below it |
| PathTraversal.WildcardSelectsEveryChild | src/native/simdjson_bridge.cpp:352-376 | one wildcard selects every child, in order: as many matches as the tree has items or fields, the k-th reading back as the k-th item, or as the k-th field behind its key; scalars select nothing |
| PathTraversal.LiteralSelectsItsLookup | src/native/simdjson_bridge.cpp:318-343 | a literal selects what its lookup finds, nothing for a soft failure, and reports any other |
| PathTraversal.SelectionComposes | src/native/simdjson_bridge.cpp:345-380 | selecting by a path and then by another is selecting by both in a row, from every match in order |
| PathTraversal.SpanMeansItsSegments | src/native/simdjson_bridge.cpp:318-348 | one lookup of a whole literal span means its segments one by one |
| PathTraversal.ApplyLiteral | src/native/simdjson_bridge.cpp:318-343 | applying the pending span keeps the meaning, dropping soft failures; a failure carries the status of one of the selection's lookups |
| PathTraversal.ExpandWildcard | src/native/simdjson_bridge.cpp:354-374 | replacing elements by their children, all of them, keeps the meaning |
| PathTraversal.TraverseWildcardPath | src/native/simdjson_bridge.cpp:307-380 | the batched traversal returns exactly what the segments select, or, exactly when some lookup of the selection fails, the status of such a lookup |
| PathTraversal.ElementAtPathAll | src/native/simdjson_bridge.cpp:1990-2042 | an ungrammatical path is refused before anything else; otherwise the reply is what its segments select, in document order, or the status of a failing lookup; for a path that is one wildcard, the reply is every child of the receiver |
| PathLookup.LookupComposes | src/native/simdjson_bridge.cpp:318-348 | whatever a single segment step does, looking spans up segment by segment meets the composition assumption |
| PathLookup.AssumptionsAreMet | src/native/simdjson_bridge.cpp:318-348 | on any tape, looking fields up by name meets both assumptions made of the upstream lookup |
| PathLookup.NestedLookupSucceeds | element.go:103-112 | with such a lookup `.a.b` is found in a nested document, and text without a leading separator is not |
| WildcardViews.ElementAtPathWildcard | src/runtime/registry.rs:1271-1317 | for any caller-supplied view and path, the views handed out resolve, in document order, to what the path's segments select; a failure carries the status of a failing lookup and leaves the registry unchanged |
| KernelSelection.StepKeepsInv | kernel.go:48-166 | every step of every thread keeps the selection invariant |
| KernelSelection.SelectionNeedsNoReservation | kernel.go:48-87 | native SetImplementation, whether it accepts or refuses, runs only with no reservation held and the Go side unlocked |
| KernelSelection.ReservationsNeverUnderflow | kernel.go:117-166 | the counter is the number of unreleased reservations, so the underflow panics cannot happen |
| KernelSelection.WaiterIsWoken | kernel.go:55-57 | no wake-up is lost: with no reservation held and the mutex free, a waiting SetKernel has been woken |
| KernelSelection.CachedNameIsActive | kernel.go:58-87 | with the mutex free and the last name query successful, the recorded name is the native one |
| KernelHistory.LastRequestIsInstalled | src/native/simdjson_bridge.cpp:1225-1263 | over every run, told from its actions: the active implementation is the one the SetKernel accepted last asked for, or the best detected for the empty name, or the initial one if none was accepted; the selection is explicit exactly if that name was not empty; and with the mutex free and the name read back it is the recorded one |
| KernelHistory.GateFollowsSelection | src/native/simdjson_bridge.cpp:1335-1344 | the native gate turns a utility down exactly for the fallback that nobody asked for by name |
| KernelHistory.SetKernelEntry | kernel.go:48-60 | entering or waking up in SetKernel refuses, waits, or goes on with the name it was called with |
| KernelHistory.SetKernelAlone | kernel.go:48-87 | an undisturbed SetKernel with nothing locked or reserved installs and records what it asked for |
| KernelHistory.SetKernelFails | kernel.go:62-76 | one whose library or native call fails selects nothing and lets go of the mutex |
| KernelHistory.UtilityAlone | minify.go:47-58 | an undisturbed utility locks both sides exactly for the statuses that follow the native gate, and gives its reservation back |
| KernelHistory.UtilityGivenUp | minify.go:47-52 | one given up before its native call leaves the selection as it was and wakes SetKernel |
| KernelHistory.ConstructorAlone | parser.go:40-62 | an undisturbed construction locks the native side, and Go's exactly on success |
| KernelSelection.LockIsForever | src/native/simdjson_bridge.cpp:1225-1263 | once either side is locked, the implementation never changes and the lock stays |
| KernelSelection.QuietLocksAgree | kernel.go:89-106 | with no utility under way the Go and native flags are equal if and only if a utility passed the gate, a constructor succeeded, or pools were created and constructors failed both or neither; and which flag is set alone when they differ |
| KernelSelection.GoAloneIsLocked | pool.go:20-28 | utilities under way or not, Go alone is locked if and only if a pool was created and no gate was passed and no constructor reached native code |
| KernelSelection.NativeLockHistory | src/native/simdjson_bridge.cpp:913-921 | the native flag is set exactly by passed gates and by constructors, failed ones included |
| KernelSelection.GoLockHistory | kernel.go:89-166 | Go is locked, or about to be by a utility that passed the gate, exactly after a pool, a gate or a successful constructor |
| KernelSelection.PoolLocksGoOnly | pool.go:20-28 | a run in which the Go side is locked and the native side is not |
| KernelSelection.StepsAreCriticalSections | kernel.go:89-166 | the steps of the interleaving model do to flag and counter what the four critical sections do, and no other step but construction touches them |
| KernelSelection.FailedConstructorLocksNativeOnly | src/native/simdjson_bridge.cpp:913-921 | a run in which the native side is locked and the Go side is not |
| KernelSelection.Selection.BeginUtilityKernel | kernel.go:117-133 | adds one unreleased reservation, as the step of the interleaving model does |
| KernelSelection.Selection.Cancel | kernel.go:137-149 | performs the cancel step for an unreleased reservation, changes nothing for a released one, and cannot underflow |
| KernelSelection.Selection.Finish | kernel.go:153-166 | performs the finish step, publishing the status with the release, once |
| KernelSelection.Selection.RunUtility | minify.go:47-58 | finish followed by the deferred cancel gives exactly one reservation back |
| ParserLifecycle.StepKeepsInv | parser.go:66-153 | every step that orphans no document keeps the life-cycle invariant |
| ParserLifecycle.StepKeepsWedged | parser.go:89-96 | once a document was orphaned, every step leaves the parser open, unmarked and natively busy |
| ParserLifecycle.OrphanedIffRootAndFreeFailed | parser.go:89-96 | a document is orphaned exactly when a root lookup failed together with the free that follows it |
| ParserLifecycle.UnmarkedParserIsIdle | parser.go:66-111 | open, unmarked and with the mutex free, a parser is natively idle if and only if no root lookup of the run failed together with its free |
| ParserLifecycle.NativeBusyNeverReachesGo | parser.go:83-87 | native parse and parser-free are called on an idle native parser if and only if no document was orphaned, and never on a freed one |
| ParserLifecycle.ClearKeepsLiveMark | parser.go:147-153 | in every run, a late clear never takes away the mark of a live document |
| ParserLifecycle.ClosesExcludeEachOther | doc.go:28-58 | two closes of one document never overlap |
| ParserLifecycle.FreedAtMostOnce | doc.go:28-109 | in every run, no handle is freed successfully twice, however closes and finalizers interleave |
| ParserLifecycle.QuietMarkIsExact | doc.go:28-58 | with no call under way, being marked and being natively busy agree if and only if no document was orphaned; a mark names the live document, and closed means natively freed |
| ParserLifecycle.OrphanedDocumentStaysBusy | parser.go:89-96 | a run in which root lookup and free both fail and the unmarked parser stays natively busy |
| ParserLifecycle.ParseAlone | parser.go:66-111 | the steps of an undisturbed parse have the combined effect that the Go method is proved to have |
| ParserLifecycle.CloseAlone | parser.go:113-145 | the same for closing the parser |
| ParserLifecycle.DocCloseAlone | doc.go:28-58 | the same for closing a document, native free failing or not; it is closed, without handle, exactly when the free succeeds |
| ParserLifecycle.FinalizerAlone | doc.go:79-109 | an undisturbed finalizer does what closing the document does |
| ClosedDocuments.CommittedDocumentIsFreedOnce | doc.go:28-109 | over every run, a document is closed exactly since a close or finalizer of it committed, and keeps its handle until then; afterwards that handle has been freed once, is never live again, and cannot be freed |
| ClosedDocuments.PublishedDocumentIsOpen | parser.go:98-111 | a published document is open and marked, with the handle native code is busy with |
| ParserLifecycle.Parser.Parse | parser.go:66-111 | each refusal with its own error, a new marked document otherwise; a quiet parser stops being quiet exactly when root lookup and free both fail |
| ParserLifecycle.Parser.Close | parser.go:113-145 | closes an unmarked idle parser, refuses a marked one, reports a failing native free and leaves the parser open, is idempotent |
| ParserLifecycle.Doc.Close | doc.go:28-58 | frees the document and clears its parser's mark, or reports why native free failed and stays open; a second close does nothing |
| LifecycleOnRegistry.ParseAsSeen | src/runtime/registry.rs:473-584 | the registry's parse refuses a busy or gone parser and makes an idle one busy with the handle it returns |
| LifecycleOnRegistry.FreeParserAsSeen | src/runtime/registry.rs:445-471 | the registry frees an idle parser only |
| LifecycleOnRegistry.FreeDocAsSeen | src/runtime/registry.rs:624-683 | freeing the busy handle makes the parser idle; no other free changes what this parser is doing |
| LifecycleOnRegistry.OwnHandleIsBusyOrRejected | src/runtime/registry.rs:624-683 | after any calls short of a full cycle of frees, a parser is still busy with its document or the document's handle is rejected |
| LifecycleOnRegistry.OwnFreeSucceedsIffBusy | src/runtime/registry.rs:624-683 | so freeing an own document succeeds exactly while the parser is busy with it |
| LifecycleOnRegistry.NewHandleIsFresh | src/runtime/registry.rs:257-304 | a handle returned later differs from every handle that was live before, short of a full cycle of frees |
| AllocTelemetry.TotalTakesOut | src/native/native_alloc_telemetry.cpp:150-175 | the sum over live records loses exactly the removed record's share |
| AllocTelemetry.StepCounters | src/native/native_alloc_telemetry.cpp:136-175 | every step keeps the totals equal to the current epoch's records plus the late insertions |
| AllocTelemetry.StepOwners | src/native/native_alloc_telemetry.cpp:136-199 | a recorded pointer is never recorded again before its record is removed |
| AllocTelemetry.TotalsAreExactUnlessLate | src/native/native_alloc_telemetry.cpp:136-223 | below 2^64 - 1 resets, live bytes and counts are exact if and only if nothing was inserted late since the last reset; live bytes never exceed the total |
| AllocTelemetry.LateIffResetBetween | src/native/native_alloc_telemetry.cpp:136-148 | in every run, an insertion is late if and only if a reset fell between its thread's allocation and itself |
| AllocTelemetry.TotalsAreExactIffTraceIsNotLate | src/native/native_alloc_telemetry.cpp:136-223 | the totals of a run are exact if and only if no insertion after its last reset belongs to an allocation made before a reset |
| AllocHistory.CountersTellTheRun | src/native/native_alloc_telemetry.cpp:88-223 | over every run, told from its actions: live records are the outstanding requests with the sizes asked for (1 for size 0), `alloc_count` counts the insertions since the last reset, `free_count` the removals of requests made since, `untracked_free_count` the removals of nothing recorded, and the byte totals are the sums of the requested sizes |
| AllocHistory.LiveBytesAreRequested | src/native/native_alloc_telemetry.cpp:136-223 | `live_bytes` is the sum of the sizes requested since the last reset and still outstanding, if and only if no insertion is late |
| AllocHistory.LiveRecordIsRequested | src/native/native_alloc_telemetry.cpp:136-172 | behind every live record lie the allocation that asked for its size, its insertion, and no removal since |
| AllocHistory.AllocateAndFreeAlone | src/native/native_alloc_telemetry.cpp:136-175 | an allocation and its free in a row leave the records as they were and count once each |
| AllocTelemetry.PromptRunIsNeverLate | src/native/native_alloc_telemetry.cpp:136-148 | without a reset between an epoch read and its insertion, nothing is late |
| AllocTelemetry.LateInsertionLeavesBytes | src/native/native_alloc_telemetry.cpp:136-148 | a run in which one live byte belongs to no live record of the epoch |
| AllocTelemetry.RemoveUndoesInsert | src/native/native_alloc_telemetry.cpp:136-175 | a free takes out what its allocation put in |
| AllocTelemetry.TelemetryState.RecordAllocation | src/native/native_alloc_telemetry.cpp:136-148 | the critical section performs the insertion, with the epoch read before and the requested size, whose history `AllocHistory.CountersTellTheRun` tells |
| AllocTelemetry.TelemetryState.RemoveAllocation | src/native/native_alloc_telemetry.cpp:150-172 | the critical section performs the removal |
| AllocTelemetry.TelemetryState.ResetCounters | src/native/native_alloc_telemetry.cpp:211-223 | starts the next epoch, never epoch 0, with all counters at zero and all records kept |
| ExactFloat.Uint64ExactIffRepresentable | element.go:53-59 | the unsigned test accepts exactly the integers m * 2^e of binary64 |
| ExactFloat.Int64ExactIffRepresentable | element.go:61-67 | the signed test likewise, the smallest integer included |
| ExactFloat.OddPartIsLeast | src/runtime/registry.rs:132-138 | the significand left after shifting is the least among all ways to scale |
| ExactFloat.Uint64TestsAgree | src/runtime/registry.rs:132-138 | counting leading zeros and measuring bit length decide alike |
| ExactFloat.Int64TestsAgree | src/runtime/registry.rs:141-148 | complement plus one and wrapping negation give the same magnitude, so the signed tests agree |
| ExactFloat.HintedPathAgrees | element.go:244-283 | with a true hint, or one naming no integer kind, both paths give the same result; an integer is returned exactly when representable, a float as the bits it has, and any other element gets the upstream answer |
| ExactFloat.NeverRounded | element.go:244-283 | whatever the hint says, an integer that is returned as a float is representable |
| Diagnostics.CheckedDiagnosticOffset | src/native/simdjson_bridge.cpp:533-564 | an offset is known exactly when the location is the address of an input byte, and then is its position |
| Diagnostics.ConsumeOndemandValue | src/native/simdjson_bridge.cpp:622-718 | returns the first error in document order and enters no container at the depth limit or deeper |
| Diagnostics.ConsumedIffCleanAndShallow | src/native/simdjson_bridge.cpp:622-718 | consuming succeeds exactly on error-free values that fit the depth limit, and an error-free value fails only for depth |
| Diagnostics.ConsumedIsFirstFailure | src/native/simdjson_bridge.cpp:622-718 | the verdict is the first failing step of all steps listed in document order, and a success means that none fails |
| Diagnostics.PassOffset | src/native/simdjson_bridge.cpp:585-620 | an offset proved by a pass lies inside the input and is where the cursor stood |
| Diagnostics.NativeParser.Replay | src/native/simdjson_bridge.cpp:720-793 | one pass finds the input valid or records the offset it proves |
| Diagnostics.NativeParser.ReplayRecursive | src/native/simdjson_bridge.cpp:795-865 | the same with the recursive consumer |
| Diagnostics.NativeParser.CaptureDiagnosticLocation | src/native/simdjson_bridge.cpp:867-891 | at most two passes, the second only after the first found the input valid; an offset is known exactly when the deciding pass starts, fails as invalid JSON and stands on an input byte, and is that byte's position |
| Diagnostics.NativeParser.Parse | src/native/simdjson_bridge.cpp:1463-1501 | a success forgets the last failure; a failure leaves its error, and the offset exactly when error and deciding pass prove one |
| Diagnostics.NativeParser.ParserParse | src/runtime/registry.rs:484-496 | a busy parser's diagnosis is left alone; otherwise it is cleared before the length check |
| Diagnostics.OffsetIsInLastInput | src/native/simdjson_bridge.cpp:407-417 | after any sequence of parses, a known offset is below the last input's length and an unknown one is UINT64_MAX |
| Diagnostics.LastAttemptIsExplained | src/native/simdjson_bridge.cpp:867-891 | after any sequence of parses, the diagnosis is that of the last one not turned away as busy: its error and the offset its deciding pass proves |
| Diagnostics.OnlyFailuresLeaveADiagnosis | src/runtime/registry.rs:489-496 | an accepted input and an over-long one leave no diagnosis, and only they |

## Left out

- The vendored simdjson parser: tokenizing, number and UTF-8 validation, pointer and path lookup and the On-Demand cursor are parameters with stated assumptions; `at_path` on a concatenation of grammatical literal segments is assumed to be the composition of their steps, as it is for the lookup of `PathLookup`.
- `bytes_free` and `value_views_free`: the two ledgers of copied buffers and view arrays are maps with one insertion and one removal each.
- `src/lib.rs`, `src/runtime/mod.rs` and `internal/ffi`: null checks, panic and exception trapping and struct layout.
- Native pointers: a document is represented by its tape, and native constructors and destructors only by their status codes.
- Running out of memory and C++ exceptions inside a call, including those that leave a parser's message behind.
- `Array.Len`, `Object.Size`, string and big-integer copies, and what scalar accessors answer on an element of another kind (conversion, NumberOutOfRange, PrecisionLoss or WrongType), which the upstream parser decides; for floats see `ExactFloat`.
- View kind hints that name a wrong kind: elements handed out by the library carry their own kind or none, and the walk is stated for those.
- Float values are bit patterns; the conversion of an accepted integer to a float is represented by the integer itself.
- `ErrClosed` and the other mappings from native statuses to Go errors, apart from the life cycle's own.
- `reserve_materialize_frames`, child-count hints and other capacity decisions, which change no contents.
- PathTraversal.TraverseWildcardPath: when several lookups of a selection fail, which of their statuses is returned depends on the order of work and is left open.
- ParserLifecycle.StepKeepsInv: native document handles are fresh numbers here, which `LifecycleOnRegistry` shows of the registry's handles up to 2^31 - 2 frees of one slot; the parser's own finalizer, which the collector runs only when no other call can, is not a step.
- KernelSelection.StepKeepsInv: the library path, its download and its ABI check are one step that may fail; a loser of the loading race is not distinguished from the winner.
- KernelSelection.Selection.RunUtility: a whole utility call without interference; the interleavings are those of the step relation.
- AllocTelemetry.StepCounters: counters are unbounded naturals, and the epoch is followed only while it does not wrap.
- `pool.go` beyond its lock of kernel selection, `parser_options.go`, `errors.go`, the overlap check of `minify.go`, `library_loading.go`, `internal/bootstrap`, `cmd`, scripts, tests and benchmarks.
