/**
 Where a parse error is: the replay passes of the native parser and the offset they may prove.

 The upstream parser's verdicts are parameters: the error of the parse itself and, for each
 replay pass, what its steps report.  Decided here is which pass runs, when a location counts
 as an offset, how deep the replay goes, and what the parser's error fields say afterwards.
 */
module Diagnostics {
  import opened Basics

  const MAX_SUPPORTED_DEPTH: nat := 1024

  /** Error codes of the upstream parser; those not named here come with the status they map to. */
  datatype Code =
    | Success
    | TapeError
    | TrailingContent
    | DepthError
    | Upstream(number: nat, status: Status)

  function MapError(code: Code): Status {
    match code
    case Success => StatusOk
    case TapeError => InvalidJson
    case TrailingContent => InvalidJson
    case DepthError => DepthLimit
    case Upstream(_, status) => status
  }

  /** Only errors reported as invalid JSON are replayed and located. */
  predicate Ordinary(code: Code) {
    MapError(code) == InvalidJson
  }

  // ----- Addresses

  datatype PointerRelation = NotQueried | InBounds | AtEnd | OutOfRange | AddressOverflow

  datatype ProvenOffset = ProvenOffset(offset: u64, known: bool, relation: PointerRelation)

  /** An offset is known exactly when the location is the address of an input byte. */
  method CheckedDiagnosticOffset(inputAddr: u64, inputLen: u64, locationAddr: u64) returns (r: ProvenOffset)
    ensures r.known <==> inputAddr + inputLen <= U64_MAX && inputAddr <= locationAddr < inputAddr + inputLen
    ensures r.known ==> r.offset < inputLen && inputAddr + r.offset == locationAddr && r.relation == InBounds
    ensures !r.known ==> r.offset == U64_MAX
    ensures r.relation == AddressOverflow <==> inputAddr + inputLen > U64_MAX
    ensures r.relation == AtEnd <==> inputAddr + inputLen <= U64_MAX && locationAddr == inputAddr + inputLen
    ensures r.relation != NotQueried
    ensures r == CheckedOffset(inputAddr, inputLen, locationAddr)
  {
    r := ProvenOffset(U64_MAX, false, NotQueried);
    if inputLen > U64_MAX - inputAddr {
      return r.(relation := AddressOverflow);
    }
    var endAddr := inputAddr + inputLen;
    if locationAddr < inputAddr || locationAddr > endAddr {
      return r.(relation := OutOfRange);
    }
    if locationAddr == endAddr {
      return r.(relation := AtEnd);
    }
    return ProvenOffset(locationAddr - inputAddr, true, InBounds);
  }

  function CheckedOffset(inputAddr: u64, inputLen: u64, locationAddr: u64): ProvenOffset {
    if inputAddr + inputLen > U64_MAX then ProvenOffset(U64_MAX, false, AddressOverflow)
    else if locationAddr < inputAddr || locationAddr > inputAddr + inputLen then
      ProvenOffset(U64_MAX, false, OutOfRange)
    else if locationAddr == inputAddr + inputLen then ProvenOffset(U64_MAX, false, AtEnd)
    else ProvenOffset(locationAddr - inputAddr, true, InBounds)
  }

  // ----- Consuming a value on demand

  type Failure = code: Code | !code.Success? witness TapeError

  /** What the upstream cursor reports about a value when it is asked step by step. */
  datatype Value =
    | Untyped(error: Failure)
    | Container(open: Code, items: seq<Item>)
    | Scalar(read: Code)
    | Unknown

  /** One child: the steps that lead to it (fetching it and, in an object, unescaping its key), and its value. */
  datatype Item = Item(steps: seq<Code>, value: Value)

  function FirstFailure(steps: seq<Code>): Code {
    if steps == [] then Success else if steps[0].Success? then FirstFailure(steps[1..]) else steps[0]
  }

  /** No step reports an error. */
  predicate Clean(v: Value)
    decreases v
  {
    match v
    case Untyped(_) => false
    case Container(open, items) => open.Success? && CleanAll(items)
    case Scalar(read) => read.Success?
    case Unknown => false
  }

  predicate CleanAll(items: seq<Item>)
    decreases items
  {
    items == [] || (FirstFailure(items[0].steps).Success? && Clean(items[0].value) && CleanAll(items[1..]))
  }

  /** Levels of containers in a value. */
  function Nesting(v: Value): nat
    decreases v
  {
    match v
    case Container(_, items) => 1 + NestingAll(items)
    case _ => 0
  }

  function NestingAll(items: seq<Item>): nat
    decreases items
  {
    if items == [] then 0
    else
      var first, rest := Nesting(items[0].value), NestingAll(items[1..]);
      if first > rest then first else rest
  }

  /** Every container of the value lies below the depth limit. */
  predicate DepthFits(nesting: nat, currentDepth: nat, maxDepth: nat) {
    nesting > 0 ==> currentDepth + nesting < maxDepth
  }

  /** The first error met when a value is consumed in document order. */
  function Consumed(v: Value, currentDepth: nat, maxDepth: nat): Code
    decreases v
  {
    if maxDepth > MAX_SUPPORTED_DEPTH then DepthError
    else
      match v
      case Untyped(failure) => failure
      case Scalar(read) => read
      case Unknown => TapeError
      case Container(open, items) =>
        if currentDepth + 1 >= maxDepth then DepthError
        else if !open.Success? then open
        else ConsumedAll(items, currentDepth + 1, maxDepth)
  }

  function ConsumedAll(items: seq<Item>, depth: nat, maxDepth: nat): Code
    decreases items
  {
    if items == [] then Success
    else if !FirstFailure(items[0].steps).Success? then FirstFailure(items[0].steps)
    else
      var error := Consumed(items[0].value, depth, maxDepth);
      if error.Success? then ConsumedAll(items[1..], depth, maxDepth) else error
  }

  /** `code` is the first step that fails, or no step does. */
  ghost predicate IsFirstFailure(steps: seq<Code>, code: Code) {
    if code.Success? then forall i :: 0 <= i < |steps| ==> steps[i].Success?
    else exists k :: 0 <= k < |steps| && steps[k] == code && forall i :: 0 <= i < k ==> steps[i].Success?
  }

  lemma {:induction false} FirstFailureIsFirst(steps: seq<Code>)
    ensures IsFirstFailure(steps, FirstFailure(steps))
    decreases |steps|
  {
    if steps != [] {
      FirstFailureIsFirst(steps[1..]);
      if steps[0].Success? && !FirstFailure(steps).Success? {
        var k :| 0 <= k < |steps[1..]| && steps[1..][k] == FirstFailure(steps)
                 && forall i :: 0 <= i < k ==> steps[1..][i].Success?;
        assert steps[k + 1] == FirstFailure(steps);
        assert forall i :: 0 <= i < k + 1 ==> i == 0 || steps[i] == steps[1..][i - 1];
      } else if steps[0].Success? {
        assert forall i :: 0 <= i < |steps| ==> i == 0 || steps[i] == steps[1..][i - 1];
      }
    }
  }

  lemma {:induction false} FirstFailureOfBoth(first: seq<Code>, second: seq<Code>)
    ensures FirstFailure(first + second) ==
            if FirstFailure(first).Success? then FirstFailure(second) else FirstFailure(first)
    decreases |first|
  {
    if first == [] {
      assert first + second == second;
    } else {
      assert (first + second)[1..] == first[1..] + second;
      FirstFailureOfBoth(first[1..], second);
    }
  }

  /** Everything that is asked about a value in document order, with containers at the limit left alone. */
  function Steps(v: Value, currentDepth: nat, maxDepth: nat): seq<Code>
    decreases v
  {
    match v
    case Untyped(failure) => [failure]
    case Scalar(read) => [read]
    case Unknown => [TapeError]
    case Container(open, items) =>
      if currentDepth + 1 >= maxDepth then [DepthError]
      else [open] + StepsOfAll(items, currentDepth + 1, maxDepth)
  }

  function StepsOfAll(items: seq<Item>, depth: nat, maxDepth: nat): seq<Code>
    decreases items
  {
    if items == [] then []
    else items[0].steps + (Steps(items[0].value, depth, maxDepth) + StepsOfAll(items[1..], depth, maxDepth))
  }

  /** Consuming stops at the first failing step in document order, and only there. */
  lemma {:induction false} ConsumedIsFirstFailure(v: Value, currentDepth: nat, maxDepth: nat)
    requires maxDepth <= MAX_SUPPORTED_DEPTH
    ensures Consumed(v, currentDepth, maxDepth) == FirstFailure(Steps(v, currentDepth, maxDepth))
    ensures IsFirstFailure(Steps(v, currentDepth, maxDepth), Consumed(v, currentDepth, maxDepth))
    decreases v
  {
    FirstFailureIsFirst(Steps(v, currentDepth, maxDepth));
    if v.Container? && currentDepth + 1 < maxDepth {
      AllConsumedIsFirstFailure(v.items, currentDepth + 1, maxDepth);
      FirstFailureOfBoth([v.open], StepsOfAll(v.items, currentDepth + 1, maxDepth));
    }
  }

  lemma {:induction false} AllConsumedIsFirstFailure(items: seq<Item>, depth: nat, maxDepth: nat)
    requires maxDepth <= MAX_SUPPORTED_DEPTH
    ensures ConsumedAll(items, depth, maxDepth) == FirstFailure(StepsOfAll(items, depth, maxDepth))
    decreases items
  {
    if items != [] {
      var value, rest := Steps(items[0].value, depth, maxDepth), StepsOfAll(items[1..], depth, maxDepth);
      ConsumedIsFirstFailure(items[0].value, depth, maxDepth);
      AllConsumedIsFirstFailure(items[1..], depth, maxDepth);
      FirstFailureOfBoth(items[0].steps, value + rest);
      FirstFailureOfBoth(value, rest);
    }
  }

  /** Consuming succeeds exactly on clean values whose containers fit; a clean value can only be too deep. */
  lemma {:induction false} ConsumedIffCleanAndShallow(v: Value, currentDepth: nat, maxDepth: nat)
    requires maxDepth <= MAX_SUPPORTED_DEPTH
    ensures Consumed(v, currentDepth, maxDepth).Success? <==>
            Clean(v) && DepthFits(Nesting(v), currentDepth, maxDepth)
    ensures Clean(v) && !Consumed(v, currentDepth, maxDepth).Success? ==>
              Consumed(v, currentDepth, maxDepth).DepthError?
    decreases v
  {
    if v.Container? && currentDepth + 1 < maxDepth {
      AllConsumedIffCleanAndShallow(v.items, currentDepth + 1, maxDepth);
    }
  }

  lemma {:induction false} AllConsumedIffCleanAndShallow(items: seq<Item>, depth: nat, maxDepth: nat)
    requires depth < maxDepth <= MAX_SUPPORTED_DEPTH
    ensures ConsumedAll(items, depth, maxDepth).Success? <==>
            CleanAll(items) && depth + NestingAll(items) < maxDepth
    ensures CleanAll(items) && !ConsumedAll(items, depth, maxDepth).Success? ==>
              ConsumedAll(items, depth, maxDepth).DepthError?
    decreases items
  {
    if items != [] {
      ConsumedIffCleanAndShallow(items[0].value, depth, maxDepth);
      AllConsumedIffCleanAndShallow(items[1..], depth, maxDepth);
    }
  }

  /** Consumes a value; whatever the cursor reports, no container at depth `maxDepth` or more is entered. */
  method ConsumeOndemandValue(v: Value, currentDepth: u64, maxDepth: nat) returns (error: Code, ghost entered: set<nat>)
    ensures error == Consumed(v, currentDepth, maxDepth)
    ensures forall d :: d in entered ==> currentDepth < d < maxDepth <= MAX_SUPPORTED_DEPTH
    decreases v
  {
    entered := {};
    if maxDepth > MAX_SUPPORTED_DEPTH {
      return DepthError, entered;
    }
    match v
    case Untyped(failure) => return failure, entered;
    case Scalar(read) => return read, entered;
    case Unknown => return TapeError, entered;
    case Container(open, items) =>
      if currentDepth == U64_MAX {
        return DepthError, entered;
      }
      var containerDepth := currentDepth + 1;
      if containerDepth >= maxDepth {
        return DepthError, entered;
      }
      entered := {containerDepth};
      if !open.Success? {
        return open, entered;
      }
      var n := 0;
      while n < |items|
        invariant n <= |items| && forall d :: d in entered ==> currentDepth < d < maxDepth
        invariant ConsumedAll(items, containerDepth, maxDepth) ==
                  ConsumedAll(items[n..], containerDepth, maxDepth)
      {
        var item := items[n];
        assert items[n..][1..] == items[n + 1..];
        error := FirstFailure(item.steps);
        if !error.Success? {
          return error, entered;
        }
        ghost var inner;
        error, inner := ConsumeOndemandValue(item.value, containerDepth, maxDepth);
        entered := entered + inner;
        if !error.Success? {
          return error, entered;
        }
        n := n + 1;
      }
      return Success, entered;
  }

  // ----- The two replay passes

  /**
   What one replay pass meets.  `consumed` is the verdict of the consuming step, `location`
   the cursor's position afterwards, if it has one.
   */
  datatype Pass = Pass(allocate: Code, iterate: Code, consumed: Code, atEnd: bool, location: Option<u64>)

  /** The error that ends a pass whose cursor exists: the consumer's own, or trailing content. */
  function PassError(p: Pass): Code {
    if !p.consumed.Success? then p.consumed else if p.atEnd then Success else TrailingContent
  }

  predicate PassStarts(p: Pass, inputLen: u64, padding: nat) {
    p.allocate.Success? && inputLen + padding <= U64_MAX && p.iterate.Success?
  }

  predicate PassValid(p: Pass, inputLen: u64, padding: nat) {
    PassStarts(p, inputLen, padding) && PassError(p).Success?
  }

  /** The offset a pass proves: it fails with an ordinary error at the address of an input byte. */
  function PassOffset(p: Pass, inputAddr: u64, inputLen: u64, padding: nat): (r: Option<nat>)
    ensures r.Some? ==> r.value < inputLen && p.location == Some(inputAddr + r.value)
  {
    if PassStarts(p, inputLen, padding) && Ordinary(PassError(p)) && p.location.Some? &&
       CheckedOffset(inputAddr, inputLen, p.location.value).known
    then Some(CheckedOffset(inputAddr, inputLen, p.location.value).offset)
    else None
  }

  /** The upstream verdicts on one input: of the parse, and of each pass should it run. */
  datatype Verdicts = Verdicts(error: Code, raw: Pass, recursive: Pass, value: Value)

  /** The second pass reports what the recursive consumer makes of the value. */
  predicate Consistent(x: Verdicts, maxDepth: nat) {
    x.recursive.consumed == Consumed(x.value, 0, maxDepth)
  }

  /** The pass runs to the end of the input and meets no error. */
  predicate FoundValid(p: Pass, inputLen: u64, padding: nat) {
    && p.allocate.Success? && p.iterate.Success? && inputLen + padding <= U64_MAX
    && p.consumed.Success? && p.atEnd
  }

  /** The pass gets as far as consuming, fails as invalid JSON, and stands on the input byte `offset`. */
  predicate FailsAt(p: Pass, inputAddr: u64, inputLen: u64, padding: nat, offset: nat) {
    && p.allocate.Success? && p.iterate.Success? && inputLen + padding <= U64_MAX
    && (if p.consumed.Success? then !p.atEnd else MapError(p.consumed) == InvalidJson)
    && offset < inputLen && inputAddr + inputLen <= U64_MAX && p.location == Some(inputAddr + offset)
  }

  /**
   What a diagnosis says about a parse.  A success leaves nothing behind.  A failure leaves its
   error, and the offset at which the deciding pass failed: the raw pass, or the recursive one when
   the raw one found nothing wrong.
   */
  ghost predicate Explains(d: Diagnosis, x: Verdicts, inputAddr: u64, inputLen: u64, padding: nat) {
    var deciding := if FoundValid(x.raw, inputLen, padding) then x.recursive else x.raw;
    && d.message == (if x.error.Success? then None else Some(x.error))
    && (!d.hasOffset ==> d.offset == U64_MAX)
    && (forall k: nat :: FailsAt(deciding, inputAddr, inputLen, padding, k) && MapError(x.error) == InvalidJson <==>
                         d.hasOffset && d.offset == k)
  }

  /** The offset of a failed parse: the first pass's, or the second's when the first finds the input valid. */
  function ErrorOffset(x: Verdicts, inputAddr: u64, inputLen: u64, padding: nat): (r: Option<nat>)
    ensures r.Some? ==> r.value < inputLen && Ordinary(x.error)
  {
    if !Ordinary(x.error) then None
    else if PassValid(x.raw, inputLen, padding) then PassOffset(x.recursive, inputAddr, inputLen, padding)
    else PassOffset(x.raw, inputAddr, inputLen, padding)
  }

  /** What the parser says about its last failure. */
  datatype Diagnosis = Diagnosis(message: Option<Code>, offset: u64, hasOffset: bool)

  const NO_DIAGNOSIS: Diagnosis := Diagnosis(None, U64_MAX, false)

  predicate DiagnosisOk(d: Diagnosis, inputLen: u64) {
    if d.hasOffset then d.offset < inputLen && d.message.Some? && Ordinary(d.message.value) else d.offset == U64_MAX
  }

  function Diagnosed(error: Code, offset: Option<nat>): Diagnosis
    requires offset.Some? ==> offset.value <= U64_MAX
  {
    Diagnosis(Some(error), if offset.Some? then offset.value else U64_MAX, offset.Some?)
  }

  lemma PassOffsetIsFailure(p: Pass, inputAddr: u64, inputLen: u64, padding: nat, k: nat)
    ensures PassOffset(p, inputAddr, inputLen, padding) == Some(k) <==> FailsAt(p, inputAddr, inputLen, padding, k)
  {
  }

  lemma ErrorOffsetExplains(x: Verdicts, inputAddr: u64, inputLen: u64, padding: nat)
    requires !x.error.Success?
    ensures Explains(Diagnosed(x.error, ErrorOffset(x, inputAddr, inputLen, padding)), x, inputAddr, inputLen, padding)
  {
    var deciding := if FoundValid(x.raw, inputLen, padding) then x.recursive else x.raw;
    forall k: nat
      ensures FailsAt(deciding, inputAddr, inputLen, padding, k) <==>
              PassOffset(deciding, inputAddr, inputLen, padding) == Some(k)
    {
      PassOffsetIsFailure(deciding, inputAddr, inputLen, padding, k);
    }
  }

  class NativeParser {
    const maxCapacity: u64
    const maxDepth: nat
    const padding: nat
    var lastError: Option<Code>
    var lastErrorOffset: u64
    var lastErrorHasOffset: bool
    var passCount: nat

    constructor (maxCapacity: u64, maxDepth: nat, padding: nat)
      requires maxDepth <= MAX_SUPPORTED_DEPTH
      ensures this.maxCapacity == maxCapacity && this.maxDepth == maxDepth && this.padding == padding
      ensures Report() == NO_DIAGNOSIS
    {
      this.maxCapacity, this.maxDepth, this.padding := maxCapacity, maxDepth, padding;
      lastError, lastErrorOffset, lastErrorHasOffset, passCount := None, U64_MAX, false, 0;
    }

    function Report(): Diagnosis
      reads this
    {
      Diagnosis(lastError, lastErrorOffset, lastErrorHasOffset)
    }

    method ClearLastError()
      modifies this`lastError, this`lastErrorOffset, this`lastErrorHasOffset
      ensures Report() == NO_DIAGNOSIS
    {
      lastError, lastErrorOffset, lastErrorHasOffset := None, U64_MAX, false;
    }

    method SetLastError(error: Code)
      modifies this`lastError, this`lastErrorOffset, this`lastErrorHasOffset
      ensures Report() == Diagnosed(error, None)
    {
      lastError, lastErrorOffset, lastErrorHasOffset := Some(error), U64_MAX, false;
    }

    /** Stores the offset of a failed pass, if the location proves one. */
    method RecordReplayFailure(error: Code, location: Option<u64>, inputAddr: u64, inputLen: u64)
      modifies this`lastErrorOffset, this`lastErrorHasOffset
      ensures lastError == old(lastError)
      ensures if Ordinary(error) && location.Some? && CheckedOffset(inputAddr, inputLen, location.value).known
              then lastErrorHasOffset && lastErrorOffset == CheckedOffset(inputAddr, inputLen, location.value).offset
              else lastErrorHasOffset == old(lastErrorHasOffset) && lastErrorOffset == old(lastErrorOffset)
    {
      if !Ordinary(error) || location.None? {
        return;
      }
      var proven := CheckedDiagnosticOffset(inputAddr, inputLen, location.value);
      if proven.known {
        lastErrorOffset, lastErrorHasOffset := proven.offset, true;
      }
    }

    /** One pass over the input, from a state without an offset. */
    method Replay(p: Pass, inputAddr: u64, inputLen: u64) returns (valid: bool)
      requires !lastErrorHasOffset && lastErrorOffset == U64_MAX && maxDepth <= MAX_SUPPORTED_DEPTH
      modifies this`lastErrorOffset, this`lastErrorHasOffset, this`passCount
      ensures valid <==> PassValid(p, inputLen, padding)
      ensures passCount == old(passCount) + 1
      ensures lastErrorHasOffset == PassOffset(p, inputAddr, inputLen, padding).Some?
      ensures lastErrorOffset ==
              if lastErrorHasOffset then PassOffset(p, inputAddr, inputLen, padding).value else U64_MAX
    {
      if maxDepth > MAX_SUPPORTED_DEPTH {
        assert false;
      }
      passCount := passCount + 1;
      if !p.allocate.Success? {
        return false;
      }
      if inputLen > U64_MAX - padding {
        return false;
      }
      if !p.iterate.Success? {
        return false;
      }
      if !p.consumed.Success? {
        RecordReplayFailure(p.consumed, p.location, inputAddr, inputLen);
        return false;
      }
      if !p.atEnd {
        RecordReplayFailure(TrailingContent, p.location, inputAddr, inputLen);
        return false;
      }
      return true;
    }

    /** The second pass: the verdict of the consuming step is the recursive consumer's. */
    method ReplayRecursive(p: Pass, v: Value, inputAddr: u64, inputLen: u64) returns (valid: bool)
      requires p.consumed == Consumed(v, 0, maxDepth)
      requires !lastErrorHasOffset && lastErrorOffset == U64_MAX && maxDepth <= MAX_SUPPORTED_DEPTH
      modifies this`lastErrorOffset, this`lastErrorHasOffset, this`passCount
      ensures valid <==> PassValid(p, inputLen, padding)
      ensures passCount == old(passCount) + 1
      ensures lastErrorHasOffset == PassOffset(p, inputAddr, inputLen, padding).Some?
      ensures lastErrorOffset ==
              if lastErrorHasOffset then PassOffset(p, inputAddr, inputLen, padding).value else U64_MAX
    {
      if maxDepth > MAX_SUPPORTED_DEPTH {
        assert false;
      }
      passCount := passCount + 1;
      if !p.allocate.Success? {
        return false;
      }
      if inputLen > U64_MAX - padding {
        return false;
      }
      if !p.iterate.Success? {
        return false;
      }
      var consumed, entered := ConsumeOndemandValue(v, 0, maxDepth);
      if !consumed.Success? {
        RecordReplayFailure(consumed, p.location, inputAddr, inputLen);
        return false;
      }
      if !p.atEnd {
        RecordReplayFailure(TrailingContent, p.location, inputAddr, inputLen);
        return false;
      }
      return true;
    }

    /** At most two passes, the second only after the first found the input valid. */
    method CaptureDiagnosticLocation(x: Verdicts, inputAddr: u64, inputLen: u64)
      requires Report() == Diagnosed(x.error, None) && maxDepth <= MAX_SUPPORTED_DEPTH && Consistent(x, maxDepth)
      modifies this`lastErrorOffset, this`lastErrorHasOffset, this`passCount
      ensures Report() == Diagnosed(x.error, ErrorOffset(x, inputAddr, inputLen, padding))
      ensures !x.error.Success? ==> Explains(Report(), x, inputAddr, inputLen, padding)
      ensures passCount == if !Ordinary(x.error) then 0 else if PassValid(x.raw, inputLen, padding) then 2 else 1
    {
      if !x.error.Success? {
        ErrorOffsetExplains(x, inputAddr, inputLen, padding);
      }
      passCount := 0;
      if !Ordinary(x.error) {
        return;
      }
      var valid := Replay(x.raw, inputAddr, inputLen);
      if !valid {
        return;
      }
      valid := ReplayRecursive(x.recursive, x.value, inputAddr, inputLen);
    }

    /** The native parse: a success forgets the last failure, a failure replaces it. */
    method Parse(x: Verdicts, inputAddr: u64, inputLen: u64) returns (rc: Status)
      requires maxDepth <= MAX_SUPPORTED_DEPTH && Consistent(x, maxDepth)
      modifies this
      ensures rc == MapError(x.error)
      ensures Report() == AfterParse(x, inputAddr, inputLen, padding)
      ensures Explains(Report(), x, inputAddr, inputLen, padding)
      ensures passCount <= 2 && (passCount == 2 ==> Ordinary(x.error) && PassValid(x.raw, inputLen, padding))
    {
      passCount := 0;
      if !x.error.Success? {
        SetLastError(x.error);
        CaptureDiagnosticLocation(x, inputAddr, inputLen);
        return MapError(x.error);
      }
      ClearLastError();
      return StatusOk;
    }

    /** The registry's parse: old diagnostics go before the input's length is looked at. */
    method ParserParse(c: Call) returns (rc: Status)
      requires maxDepth <= MAX_SUPPORTED_DEPTH && Consistent(c.verdicts, maxDepth)
      modifies this
      ensures Report() == AfterCall(old(Report()), c, maxCapacity, padding)
      ensures c.busy ==> Report() == old(Report())
      ensures !c.busy && c.inputLen <= maxCapacity ==>
                Explains(Report(), c.verdicts, c.inputAddr, c.inputLen, padding)
      ensures rc == if c.busy then ParserBusy
                    else if c.inputLen > maxCapacity then CapacityLimit
                    else MapError(c.verdicts.error)
    {
      if c.busy {
        return ParserBusy;
      }
      ClearLastError();
      if c.inputLen > maxCapacity {
        return CapacityLimit;
      }
      rc := Parse(c.verdicts, c.inputAddr, c.inputLen);
    }
  }

  function AfterParse(x: Verdicts, inputAddr: u64, inputLen: u64, padding: nat): Diagnosis {
    if x.error.Success? then NO_DIAGNOSIS else Diagnosed(x.error, ErrorOffset(x, inputAddr, inputLen, padding))
  }

  lemma AfterParseExplains(x: Verdicts, inputAddr: u64, inputLen: u64, padding: nat)
    ensures Explains(AfterParse(x, inputAddr, inputLen, padding), x, inputAddr, inputLen, padding)
  {
    if x.error.Success? {
      assert MapError(x.error) == StatusOk;
      assert !NO_DIAGNOSIS.hasOffset;
    } else {
      ErrorOffsetExplains(x, inputAddr, inputLen, padding);
    }
  }

  // ----- Sequences of parses

  /** One parse call on one parser. */
  datatype Call = Call(busy: bool, inputAddr: u64, inputLen: u64, verdicts: Verdicts)

  /** A busy parser is left alone; otherwise old diagnostics go first, even when the input is too long. */
  function AfterCall(d: Diagnosis, c: Call, maxCapacity: u64, padding: nat): Diagnosis {
    if c.busy then d
    else if c.inputLen > maxCapacity then NO_DIAGNOSIS
    else AfterParse(c.verdicts, c.inputAddr, c.inputLen, padding)
  }

  function AfterCalls(calls: seq<Call>, maxCapacity: u64, padding: nat): Diagnosis {
    if calls == [] then NO_DIAGNOSIS
    else AfterCall(AfterCalls(calls[..|calls| - 1], maxCapacity, padding), calls[|calls| - 1], maxCapacity, padding)
  }

  /** Length of the last input that a call did not turn away as busy. */
  function LastLength(calls: seq<Call>): u64 {
    if calls == [] then 0
    else if calls[|calls| - 1].busy then LastLength(calls[..|calls| - 1])
    else calls[|calls| - 1].inputLen
  }

  /** After any calls, a known offset lies inside the last input and an unknown one is all ones. */
  lemma {:induction false} OffsetIsInLastInput(calls: seq<Call>, maxCapacity: u64, padding: nat)
    ensures DiagnosisOk(AfterCalls(calls, maxCapacity, padding), LastLength(calls))
    decreases |calls|
  {
    if calls != [] {
      OffsetIsInLastInput(calls[..|calls| - 1], maxCapacity, padding);
    }
  }

  /** The last call that was not turned away as busy. */
  function LastAttempt(calls: seq<Call>): Option<Call> {
    if calls == [] then None
    else if calls[|calls| - 1].busy then LastAttempt(calls[..|calls| - 1])
    else Some(calls[|calls| - 1])
  }

  /** After any calls, the diagnosis explains the last attempt; an attempt with too long an input has none. */
  lemma {:induction false} LastAttemptIsExplained(calls: seq<Call>, maxCapacity: u64, padding: nat)
    ensures var d, last := AfterCalls(calls, maxCapacity, padding), LastAttempt(calls);
            if last.None? || last.value.inputLen > maxCapacity
            then d.message == None && !d.hasOffset && d.offset == U64_MAX
            else Explains(d, last.value.verdicts, last.value.inputAddr, last.value.inputLen, padding)
    decreases |calls|
  {
    if calls != [] {
      var c := calls[|calls| - 1];
      LastAttemptIsExplained(calls[..|calls| - 1], maxCapacity, padding);
      AfterParseExplains(c.verdicts, c.inputAddr, c.inputLen, padding);
      assert LastAttempt(calls) == if c.busy then LastAttempt(calls[..|calls| - 1]) else Some(c);
    }
  }

  /** An accepted input, and one too long to be looked at, both leave no diagnosis behind. */
  lemma OnlyFailuresLeaveADiagnosis(calls: seq<Call>, maxCapacity: u64, padding: nat)
    requires calls != [] && !calls[|calls| - 1].busy
    ensures var last := calls[|calls| - 1];
            AfterCalls(calls, maxCapacity, padding) == NO_DIAGNOSIS <==>
            last.inputLen > maxCapacity || last.verdicts.error.Success?
  {
  }
}
