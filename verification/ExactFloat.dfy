/**
 When an integer may be read as a binary64 value without rounding.

 Both languages strip trailing zero bits and compare a bit length with 53.  The test is exactly
 representability in binary64 (section 3.6 of IEEE 754-2019: precision 53, exponents of the
 integral significand from -1074 to 971).
 */
module ExactFloat {
  import opened Basics
  import opened Tape

  // ----- Bit operations on unsigned integers

  function Pow2(n: nat): (p: nat)
    ensures p > 0
  {
    if n == 0 then 1 else 2 * Pow2(n - 1)
  }

  function TrailingZeros(v: nat): nat
    requires v > 0
  {
    if v % 2 == 1 then 0 else 1 + TrailingZeros(v / 2)
  }

  function ShiftRight(v: nat, n: nat): nat
    decreases n
  {
    if n == 0 then v else ShiftRight(v / 2, n - 1)
  }

  function BitLength(v: nat): nat {
    if v == 0 then 0 else 1 + BitLength(v / 2)
  }

  /** Zero bits in front of `v` in a word of `width` bits. */
  function LeadingZeros(v: nat, width: nat): nat
    requires v < Pow2(width)
  {
    if width == 0 || v >= Pow2(width - 1) then 0 else 1 + LeadingZeros(v, width - 1)
  }

  lemma {:induction false} BitLengthBounds(v: nat, n: nat)
    ensures BitLength(v) <= n <==> v < Pow2(n)
    decreases n
  {
    if v > 0 && n > 0 {
      BitLengthBounds(v / 2, n - 1);
    }
  }

  lemma {:induction false} LeadingZerosCountTheRest(v: nat, width: nat)
    requires v < Pow2(width)
    ensures LeadingZeros(v, width) <= width && width - LeadingZeros(v, width) == BitLength(v)
    decreases width
  {
    BitLengthBounds(v, width);
    if width > 0 {
      BitLengthBounds(v, width - 1);
      if v < Pow2(width - 1) {
        LeadingZerosCountTheRest(v, width - 1);
      }
    }
  }

  // ----- The two tests

  predicate ExactFloat64Uint64(value: u64) {
    if value == 0 then true
    else
      var significant := ShiftRight(value, TrailingZeros(value));
      BitLength(significant) <= 53
  }

  /** Bitwise complement of a signed integer. */
  function Not(v: i64): i64 {
    -(v as int) - 1
  }

  function GoMagnitude(value: i64): u64 {
    if value < 0 then Not(value) + 1 else value
  }

  predicate ExactFloat64Int64(value: i64) {
    ExactFloat64Uint64(GoMagnitude(value))
  }

  /** Negation that leaves the smallest integer unchanged. */
  function WrappingNeg(v: i64): i64 {
    if v == -0x8000_0000_0000_0000 then v else -(v as int)
  }

  /** Reinterpretation of a signed word as unsigned. */
  function AsU64(v: i64): u64 {
    if v < 0 then v + 0x1_0000_0000_0000_0000 else v
  }

  lemma ShiftRightShrinks(v: nat, n: nat)
    ensures ShiftRight(v, n) <= v
  {
  }

  lemma TwiceProduct(x: nat, y: nat)
    ensures 2 * (x * y) == (2 * x) * y == x * (2 * y)
  {
  }

  lemma {:induction false} Pow2Adds(a: nat, b: nat)
    ensures Pow2(a + b) == Pow2(a) * Pow2(b)
    decreases a
  {
    if a == 0 {
      assert Pow2(0) == 1;
    } else {
      var x, y := Pow2(a - 1), Pow2(b);
      Pow2Adds(a - 1, b);
      TwiceProduct(x, y);
      assert Pow2(a + b) == 2 * Pow2(a - 1 + b) == 2 * (x * y);
    }
  }

  lemma FitsWord(value: u64)
    ensures value < Pow2(64)
  {
    assert Pow2(8) == 256;
    Pow2Adds(8, 8);
    Pow2Adds(16, 16);
    Pow2Adds(32, 32);
  }

  predicate Uint64IsExactFloat64(value: u64) {
    if value == 0 then true
    else
      var significant := ShiftRight(value, TrailingZeros(value));
      ShiftRightShrinks(value, TrailingZeros(value));
      FitsWord(value);
      64 - LeadingZeros(significant, 64) <= 53
  }

  predicate Int64IsExactFloat64(value: i64) {
    Uint64IsExactFloat64(if value < 0 then AsU64(WrappingNeg(value)) else AsU64(value))
  }

  // ----- Representability

  const MIN_EXPONENT: int := -1074
  const MAX_EXPONENT: int := 971

  predicate Significand(m: int) {
    -(Pow2(53) as int) < m < Pow2(53)
  }

  /** `v` is m * 2^e. */
  predicate IsScaled(v: int, m: int, e: int) {
    if e >= 0 then v == m * Pow2(e) else v * Pow2(-e) == m
  }

  ghost predicate InBinary64(v: int) {
    exists m, e :: Significand(m) && MIN_EXPONENT <= e <= MAX_EXPONENT && IsScaled(v, m, e)
  }

  lemma {:induction false} OddPart(v: nat)
    requires v > 0
    ensures v == ShiftRight(v, TrailingZeros(v)) * Pow2(TrailingZeros(v))
    decreases v
  {
    if v % 2 == 0 {
      OddPart(v / 2);
      var s, p := ShiftRight(v / 2, TrailingZeros(v / 2)), Pow2(TrailingZeros(v / 2));
      TwiceProduct(s, p);
    }
  }

  /** Of all ways to write v as m * 2^e, the odd part has the smallest significand. */
  lemma {:induction false} OddPartIsLeast(v: nat, m: nat, e: nat)
    requires v > 0 && v == m * Pow2(e)
    ensures ShiftRight(v, TrailingZeros(v)) <= m
    decreases e
  {
    if e == 0 {
      ShiftRightShrinks(v, TrailingZeros(v));
    } else {
      var p := Pow2(e - 1);
      TwiceProduct(m, p);
      OddPartIsLeast(v / 2, m, e - 1);
    }
  }

  lemma {:induction false} TrailingZerosBound(v: nat, n: nat)
    requires 0 < v < Pow2(n)
    ensures TrailingZeros(v) < n
    decreases n
  {
    if v % 2 == 0 {
      TrailingZerosBound(v / 2, n - 1);
    }
  }

  lemma ProductSign(m: int, p: nat)
    requires p > 0
    ensures m * p > 0 <==> m > 0
    ensures m > 0 ==> m <= m * p
  {
  }

  lemma ScaledMagnitude(v: nat, m: int, e: int)
    requires v > 0 && Significand(m) && IsScaled(v, m, e)
    ensures ShiftRight(v, TrailingZeros(v)) < Pow2(53)
  {
    if e >= 0 {
      ProductSign(m, Pow2(e));
      OddPartIsLeast(v, m, e);
    } else {
      ShiftRightShrinks(v, TrailingZeros(v));
      ProductSign(v, Pow2(-e));
    }
  }

  /** The unsigned test accepts exactly the representable values. */
  lemma Uint64ExactIffRepresentable(value: u64)
    ensures ExactFloat64Uint64(value) <==> InBinary64(value)
  {
    if value == 0 {
      assert Significand(0) && IsScaled(0, 0, 0);
    } else {
      var tz := TrailingZeros(value);
      var significant := ShiftRight(value, tz);
      BitLengthBounds(significant, 53);
      OddPart(value);
      FitsWord(value);
      TrailingZerosBound(value, 64);
      if significant < Pow2(53) {
        assert IsScaled(value, significant, tz);
      }
      if InBinary64(value) {
        var m, e :| Significand(m) && MIN_EXPONENT <= e <= MAX_EXPONENT && IsScaled(value, m, e);
        ScaledMagnitude(value, m, e);
      }
    }
  }

  lemma NegationKeepsRepresentability(v: int)
    ensures InBinary64(v) ==> InBinary64(-v)
  {
    if InBinary64(v) {
      var m, e :| Significand(m) && MIN_EXPONENT <= e <= MAX_EXPONENT && IsScaled(v, m, e);
      assert IsScaled(-v, -m, e) by {
        if e >= 0 {
          assert (-m) * Pow2(e) == -(m * Pow2(e));
        } else {
          assert (-v) * Pow2(-e) == -(v * Pow2(-e));
        }
      }
    }
  }

  /** The signed test accepts exactly the representable values, the smallest integer included. */
  lemma Int64ExactIffRepresentable(value: i64)
    ensures ExactFloat64Int64(value) <==> InBinary64(value)
  {
    Uint64ExactIffRepresentable(GoMagnitude(value));
    var v: int := value;
    NegationKeepsRepresentability(v);
    NegationKeepsRepresentability(-v);
  }

  // ----- The two languages agree

  lemma Uint64TestsAgree(value: u64)
    ensures ExactFloat64Uint64(value) == Uint64IsExactFloat64(value)
  {
    if value != 0 {
      ShiftRightShrinks(value, TrailingZeros(value));
      FitsWord(value);
      LeadingZerosCountTheRest(ShiftRight(value, TrailingZeros(value)), 64);
    }
  }

  lemma Int64TestsAgree(value: i64)
    ensures ExactFloat64Int64(value) == Int64IsExactFloat64(value)
  {
    assert GoMagnitude(value) == if value < 0 then AsU64(WrappingNeg(value)) else AsU64(value);
    Uint64TestsAgree(GoMagnitude(value));
  }

  /** A float that was converted from an integer, or one that the tape holds. */
  datatype Float = FromInteger(value: int) | FromBits(bits: u64)

  /** The native scalar accessors; what they answer on another kind is up to the upstream parser. */
  datatype Accessors = Accessors(
    int64: Scalar -> Result<i64, Status>,
    uint64: Scalar -> Result<u64, Status>,
    float64: Scalar -> Result<u64, Status>)

  ghost predicate ReadOwnKind(native: Accessors) {
    && (forall i: i64 :: native.int64(Int64(i)) == Ok(i))
    && (forall u: u64 :: native.uint64(Uint64(u)) == Ok(u))
    && (forall bits: u64 :: native.float64(Float64(bits)) == Ok(bits))
  }

  function Converted(value: int, exact: bool): Result<Float, Status> {
    if exact then Ok(FromInteger(value)) else Err(PrecisionLoss)
  }

  function OfBits(r: Result<u64, Status>): Result<Float, Status> {
    match r
    case Ok(bits) => Ok(FromBits(bits))
    case Err(rc) => Err(rc)
  }

  /** The library's float accessor looks at the element's actual kind. */
  function ElementGetFloat64(native: Accessors, s: Scalar): Result<Float, Status> {
    if ScalarKind(s) == KIND_INT64 then
      match native.int64(s)
      case Ok(value) => Converted(value, Int64IsExactFloat64(value))
      case Err(rc) => Err(rc)
    else if ScalarKind(s) == KIND_UINT64 then
      match native.uint64(s)
      case Ok(value) => Converted(value, Uint64IsExactFloat64(value))
      case Err(rc) => Err(rc)
    else OfBits(native.float64(s))
  }

  /** The Go accessor looks at the view's kind hint first. */
  function GetFloat64(native: Accessors, hint: u32, s: Scalar): Result<Float, Status> {
    if hint == KIND_INT64 then
      match native.int64(s)
      case Ok(value) => Converted(value, ExactFloat64Int64(value))
      case Err(rc) => Err(rc)
    else if hint == KIND_UINT64 then
      match native.uint64(s)
      case Ok(value) => Converted(value, ExactFloat64Uint64(value))
      case Err(rc) => Err(rc)
    else ElementGetFloat64(native, s)
  }

  /** Whatever the hint says of the element, a converted integer is representable. */
  lemma NeverRounded(native: Accessors, hint: u32, s: Scalar)
    ensures GetFloat64(native, hint, s).Ok? && GetFloat64(native, hint, s).value.FromInteger? ==>
              InBinary64(GetFloat64(native, hint, s).value.value)
  {
    if hint == KIND_INT64 || ScalarKind(s) == KIND_INT64 {
      if native.int64(s).Ok? {
        Int64TestsAgree(native.int64(s).value);
        Int64ExactIffRepresentable(native.int64(s).value);
      }
    }
    if hint == KIND_UINT64 || ScalarKind(s) == KIND_UINT64 {
      if native.uint64(s).Ok? {
        Uint64TestsAgree(native.uint64(s).value);
        Uint64ExactIffRepresentable(native.uint64(s).value);
      }
    }
  }

  /**
   With a true hint, or one that names no integer, both paths agree.  An integer is never rounded, a
   float is read as it stands, and any other element gets the upstream parser's answer.
   */
  lemma HintedPathAgrees(native: Accessors, hint: u32, s: Scalar)
    requires ReadOwnKind(native) && (hint == ScalarKind(s) || (hint != KIND_INT64 && hint != KIND_UINT64))
    ensures GetFloat64(native, hint, s) == ElementGetFloat64(native, s)
    ensures s.Int64? ==>
              GetFloat64(native, hint, s) == if InBinary64(s.i) then Ok(FromInteger(s.i)) else Err(PrecisionLoss)
    ensures s.Uint64? ==>
              GetFloat64(native, hint, s) == if InBinary64(s.u) then Ok(FromInteger(s.u)) else Err(PrecisionLoss)
    ensures s.Float64? ==> GetFloat64(native, hint, s) == Ok(FromBits(s.bits))
    ensures !s.Int64? && !s.Uint64? ==>
              && (native.float64(s).Ok? ==> GetFloat64(native, hint, s) == Ok(FromBits(native.float64(s).value)))
              && (native.float64(s).Err? ==> GetFloat64(native, hint, s) == Err(native.float64(s).error))
  {
    match s
    case Int64(i) =>
      Int64TestsAgree(i);
      Int64ExactIffRepresentable(i);
    case Uint64(u) =>
      Uint64TestsAgree(u);
      Uint64ExactIffRepresentable(u);
    case _ =>
  }
}
