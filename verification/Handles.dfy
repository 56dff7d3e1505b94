/** Packed handles, slot generations and the cyclic probe for iterator lease ids. */
module Handles {
  import opened Basics

  const PARSER_GENERATION_START: u32 := 1
  const DOC_GENERATION_START: u32 := 2
  const ITER_LEASE_START: u32 := 1
  const MAX_SLOT_COUNT: nat := 0xFFFF_FFFE
  const TWO_32: nat := 0x1_0000_0000

  // ----- Packing

  function PackHandle(slot: u32, generation: u32): u64 {
    slot + generation * TWO_32
  }

  /** Zero-based slot index and generation of a handle. */
  function UnpackHandle(handle: u64): Result<(nat, u32), Status> {
    var slot := handle % TWO_32;
    if handle == 0 || slot == 0 then Err(InvalidHandle) else Ok((slot - 1, handle / TWO_32))
  }

  lemma UnpackPacked(index: nat, generation: u32)
    requires index < MAX_SLOT_COUNT
    ensures UnpackHandle(PackHandle(index + 1, generation)) == Ok((index, generation))
    ensures PackHandle(index + 1, generation) != 0
  {
  }

  lemma PackedUnpacks(handle: u64)
    requires UnpackHandle(handle).Ok?
    ensures var (index, generation) := UnpackHandle(handle).value;
            index < U32_MAX && handle == PackHandle(index + 1, generation)
  {
  }

  // ----- Generations

  function WrappingAdd32(a: u32, b: u32): u32 {
    if a + b >= TWO_32 then a + b - TWO_32 else a + b
  }

  function NextGeneration(current: u32, restart: u32): u32 {
    var next := WrappingAdd32(current, 2);
    if next == 0 then restart else next
  }

  function NextParserGeneration(current: u32): u32 {
    NextGeneration(current, PARSER_GENERATION_START)
  }

  function NextDocGeneration(current: u32): u32 {
    NextGeneration(current, DOC_GENERATION_START)
  }

  /** Parser generations are odd, document generations even and never zero. */
  predicate IsParserGeneration(g: u32) {
    g % 2 == 1
  }

  predicate IsDocGeneration(g: u32) {
    g % 2 == 0 && g != 0
  }

  lemma GenerationsKeepParity(g: u32)
    ensures IsParserGeneration(g) ==> IsParserGeneration(NextParserGeneration(g))
    ensures IsDocGeneration(g) ==> IsDocGeneration(NextDocGeneration(g))
  {
  }

  lemma HandlesNeverCollide(parserSlot: nat, parserGeneration: u32, docSlot: nat, docGeneration: u32)
    requires parserSlot < MAX_SLOT_COUNT && docSlot < MAX_SLOT_COUNT
    requires IsParserGeneration(parserGeneration) && IsDocGeneration(docGeneration)
    ensures PackHandle(parserSlot + 1, parserGeneration) != PackHandle(docSlot + 1, docGeneration)
  {
    UnpackPacked(parserSlot, parserGeneration);
    UnpackPacked(docSlot, docGeneration);
  }

  /** The generation after `n` frees of the slot. */
  function ParserGenerationAfter(g: u32, n: nat): u32 {
    if n == 0 then g else NextParserGeneration(ParserGenerationAfter(g, n - 1))
  }

  function DocGenerationAfter(g: u32, n: nat): u32 {
    if n == 0 then g else NextDocGeneration(DocGenerationAfter(g, n - 1))
  }

  const PARSER_CYCLE: nat := 0x8000_0000
  const DOC_CYCLE: nat := 0x7FFF_FFFF

  /** The `p`-th odd generation moves round the cycle of odd numbers, one place per free. */
  lemma {:induction false} ParserGenerationMoves(p: nat, n: nat)
    requires p < PARSER_CYCLE && n <= PARSER_CYCLE
    ensures ParserGenerationAfter(2 * p + 1, n) ==
            2 * (if p + n < PARSER_CYCLE then p + n else p + n - PARSER_CYCLE) + 1
  {
    if n > 0 {
      ParserGenerationMoves(p, n - 1);
    }
  }

  lemma {:induction false} DocGenerationMoves(p: nat, n: nat)
    requires p < DOC_CYCLE && n <= DOC_CYCLE
    ensures DocGenerationAfter(2 * p + 2, n) == 2 * (if p + n < DOC_CYCLE then p + n else p + n - DOC_CYCLE) + 2
  {
    if n > 0 {
      DocGenerationMoves(p, n - 1);
    }
  }

  /** A slot shows a freed generation again only after a full cycle of frees. */
  lemma ParserGenerationRecurs(g: u32, n: nat)
    requires IsParserGeneration(g) && 0 < n <= PARSER_CYCLE
    ensures ParserGenerationAfter(g, n) == g <==> n == PARSER_CYCLE
  {
    assert g == 2 * (g / 2) + 1;
    ParserGenerationMoves(g / 2, n);
  }

  lemma DocGenerationRecurs(g: u32, n: nat)
    requires IsDocGeneration(g) && 0 < n <= DOC_CYCLE
    ensures DocGenerationAfter(g, n) == g <==> n == DOC_CYCLE
  {
    assert g == 2 * (g / 2 - 1) + 2;
    DocGenerationMoves(g / 2 - 1, n);
  }

  // ----- Lease ids

  function NextIterLease(current: u32): u32 {
    var next := WrappingAdd32(current, 1);
    if next == 0 then ITER_LEASE_START else next
  }

  /** First unused id among `n` ids of the cycle, starting at `id`. */
  function Probe<T>(leases: map<u32, T>, id: u32, n: nat): Option<u32>
    decreases n
  {
    if n == 0 then None
    else if id !in leases then Some(id)
    else Probe(leases, NextIterLease(id), n - 1)
  }

  function FirstProbe(next: u32): u32 {
    if next == 0 then ITER_LEASE_START else next
  }

  /** The id a new lease receives, if one is free. */
  function FreshLease<T>(leases: map<u32, T>, next: u32): Option<u32> {
    if |leases| >= U32_MAX then None else Probe(leases, FirstProbe(next), U32_MAX)
  }

  lemma {:induction false} ProbeFindsUnused<T>(leases: map<u32, T>, id: u32, n: nat)
    requires id != 0
    ensures Probe(leases, id, n).Some? ==>
              Probe(leases, id, n).value !in leases && Probe(leases, id, n).value != 0
    decreases n
  {
    if n > 0 && id in leases {
      ProbeFindsUnused(leases, NextIterLease(id), n - 1);
    }
  }

  /** The id `d` steps after `id` on the cycle of nonzero ids. */
  function CyclicId(id: u32, d: nat): nat {
    if id + d <= U32_MAX then id + d else id + d - U32_MAX
  }

  lemma {:induction false} FailedProbeSawAll<T>(leases: map<u32, T>, id: u32, n: nat, d: nat)
    requires id != 0 && Probe(leases, id, n) == None && d < n <= U32_MAX
    ensures CyclicId(id, d) in leases
    decreases n
  {
    if d > 0 {
      FailedProbeSawAll(leases, NextIterLease(id), n - 1, d - 1);
    }
  }

  lemma {:induction false} ManyIdsManyLeases(ids: set<u32>, m: nat)
    requires forall x: u32 :: 1 <= x <= m ==> x in ids
    requires m <= U32_MAX
    ensures |ids| >= m
  {
    if m > 0 {
      var rest := ids - {m};
      ManyIdsManyLeases(rest, m - 1);
      assert ids == rest + {m};
    }
  }

  lemma {:induction false} FewIdsFewLeases(ids: set<u32>, m: nat)
    requires m <= U32_MAX && forall x :: x in ids ==> 1 <= x <= m
    ensures |ids| <= m
    decreases m
  {
    if m == 0 {
      assert ids == {};
    } else {
      var last: u32 := m;
      FewIdsFewLeases(ids - {last}, m - 1);
      assert last in ids ==> |ids - {last}| == |ids| - 1;
      assert last !in ids ==> ids - {last} == ids;
    }
  }

  /** The probe succeeds from every lease map that is not full, and fails on a full one. */
  lemma FreshLeaseExistsIffRoom<T>(leases: map<u32, T>, next: u32)
    requires 0 !in leases
    ensures FreshLease(leases, next).Some? <==> |leases| < U32_MAX
    ensures FreshLease(leases, next).Some? ==>
              FreshLease(leases, next).value !in leases && FreshLease(leases, next).value != 0
  {
    if |leases| < U32_MAX {
      ProbeFromIsComplete(leases, FirstProbe(next), U32_MAX);
    }
  }

  lemma ProbeFromIsComplete<T>(leases: map<u32, T>, start: u32, n: nat)
    requires start != 0 && n == U32_MAX && |leases| < n
    ensures Probe(leases, start, n).Some?
    ensures Probe(leases, start, n).value !in leases && Probe(leases, start, n).value != 0
  {
    if Probe(leases, start, n) == None {
      forall x: u32 | 1 <= x <= n
        ensures x in leases.Keys
      {
        FailedProbeSawAll(leases, start, n, if x >= start then x - start else x + n - start);
      }
      ManyIdsManyLeases(leases.Keys, n);
      assert false;
    }
    ProbeFindsUnused(leases, start, n);
  }
}
