// Machine integers, bytes and the status codes shared by every layer.
module Basics {

  const U32_MAX: nat := 0xFFFF_FFFF
  const U64_MAX: nat := 0xFFFF_FFFF_FFFF_FFFF

  type u16 = x: nat | x < 0x1_0000
  type u32 = x: nat | x <= U32_MAX
  type u64 = x: nat | x <= U64_MAX
  type i64 = x: int | -0x8000_0000_0000_0000 <= x < 0x8000_0000_0000_0000

  newtype Byte = x: int | 0 <= x < 256
  type Bytes = seq<Byte>

  datatype Option<+T> = None | Some(value: T)

  /** The result of an operation that returns a value or a status code. */
  datatype Result<+T, +E> = Ok(value: T) | Err(error: E)

  /** The numbered status codes that the modelled operations return. */
  datatype Status =
    | StatusOk
    | InvalidArgument
    | BufferTooSmall
    | InvalidHandle
    | ParserBusy
    | WrongType
    | ElementNotFound
    | DepthLimit
    | CapacityLimit
    | KernelLocked
    | InvalidPath
    | IndexOutOfRange
    | InvalidJson
    | NumberOutOfRange
    | PrecisionLoss
    | CpuUnsupported
    | CppException
    | Internal

  function Zeros(n: nat): (z: Bytes)
    ensures |z| == n
    ensures forall i :: 0 <= i < n ==> z[i] == 0
  {
    seq(n, _ => 0)
  }

  /** `s` carries the run `w` at position `i`. */
  predicate Holds<T(==)>(s: seq<T>, i: nat, w: seq<T>) {
    i + |w| <= |s| && forall j {:trigger w[j]} :: 0 <= j < |w| ==> s[i + j] == w[j]
  }

  lemma HoldsSplit<T>(s: seq<T>, i: nat, a: seq<T>, b: seq<T>)
    requires Holds(s, i, a + b)
    ensures Holds(s, i, a) && Holds(s, i + |a|, b)
  {
    var w := a + b;
    assert forall j {:trigger a[j]} :: 0 <= j < |a| ==> s[i + j] == w[j] == a[j];
    assert forall j {:trigger b[j]} :: 0 <= j < |b| ==> s[i + (|a| + j)] == w[|a| + j] == b[j];
  }

  lemma HoldsHead<T>(s: seq<T>, i: nat, x: T, rest: seq<T>)
    requires Holds(s, i, [x] + rest)
    ensures i < |s| && s[i] == x && Holds(s, i + 1, rest)
  {
    HoldsSplit(s, i, [x], rest);
    assert s[i + 0] == [x][0];
  }
}
