/** Small vocabulary shared by every module: results, options and byte strings. */
module Common {
  datatype Option<+T> = None | Some(value: T)

  /** A Go `(T, error)` pair: exactly one of the two is meaningful. */
  datatype Result<+T, +E> = Ok(value: T) | Err(error: E) {
    predicate IsFailure() {
      Err?
    }
    function PropagateFailure<U>(): Result<U, E>
      requires Err?
    {
      Err(error)
    }
    function Extract(): T
      requires Ok?
    {
      value
    }
  }

  type byte = x: int | 0 <= x < 0x100
  type Bytes = seq<byte>

  const TWO32: int := 0x1_0000_0000
  const TWO64: int := 0x1_0000_0000_0000_0000
  const MAX_INT32: int := 0x7fff_ffff
  const MAX_UINT32: int := 0xffff_ffff
  const MAX_INT64: int := 0x7fff_ffff_ffff_ffff

  /** `n` zero bytes. */
  function Zeros(n: nat): (z: Bytes)
    ensures |z| == n
    ensures forall i :: 0 <= i < n ==> z[i] == 0
  {
    seq(n, i => 0)
  }

  /** binary.BigEndian.PutUint32. */
  function PutU32(n: int): (b: Bytes)
    requires 0 <= n < TWO32
    ensures |b| == 4
  {
    [n / 0x100_0000, n / 0x1_0000 % 0x100, n / 0x100 % 0x100, n % 0x100]
  }

  /** The most significant byte comes first. */
  lemma BigEndian(n: int)
    requires 0 <= n < TWO32
    ensures var b := PutU32(n);
            var b0: int, b1: int, b2: int, b3: int := b[0], b[1], b[2], b[3];
            n == b0 * 0x1_00_00_00 + b1 * 0x1_00_00 + b2 * 0x1_00 + b3
  {
    var x := n / 0x100;
    var y := x / 0x100;
    assert n / 0x1_0000 == y && n / 0x100_0000 == y / 0x100;
    BaseDigits(n);
  }

  /** binary.BigEndian.Uint32 on the first four bytes. */
  function GetU32(b: Bytes): (n: int)
    requires |b| >= 4
    ensures 0 <= n < TWO32
  {
    var b0: int, b1: int, b2: int, b3: int := b[0], b[1], b[2], b[3];
    b0 * 0x100_0000 + b1 * 0x1_0000 + b2 * 0x100 + b3
  }

  lemma PutGetU32(n: int, rest: Bytes)
    requires 0 <= n < TWO32
    ensures GetU32(PutU32(n) + rest) == n
  {
    var b := PutU32(n) + rest;
    var x := n / 0x100;
    var y := x / 0x100;
    assert n / 0x1_0000 == y && n / 0x100_0000 == y / 0x100;
    assert b[0] == y / 0x100 && b[1] == y % 0x100 && b[2] == x % 0x100 && b[3] == n % 0x100;
    BaseDigits(n);
  }

  /** A number in base 256, from its nested quotients. */
  lemma BaseDigits(n: nat)
    ensures n / 0x100 / 0x100 / 0x100 * 0x100_0000 + n / 0x100 / 0x100 % 0x100 * 0x1_0000
        + n / 0x100 % 0x100 * 0x100 + n % 0x100 == n
  {
  }

  lemma GetPutU32(b: Bytes)
    requires |b| >= 4
    ensures PutU32(GetU32(b)) == b[..4]
  {
    var n := GetU32(b);
    var b0: int, b1: int, b2: int := b[0], b[1], b[2];
    assert n / 0x100_0000 == b0;
    assert n / 0x1_0000 == b0 * 0x100 + b1;
    assert n / 0x100 == b0 * 0x1_0000 + b1 * 0x100 + b2;
  }

  /** Go's uint32 -> int32 conversion. */
  function AsInt32(u: int): (n: int)
    requires 0 <= u < TWO32
    ensures -0x8000_0000 <= n <= MAX_INT32
    ensures FromInt32(n) == u
  {
    if u <= MAX_INT32 then u else u - TWO32
  }

  /** Go's int32 -> uint32 conversion. */
  function FromInt32(n: int): (u: int)
    requires -0x8000_0000 <= n <= MAX_INT32
    ensures 0 <= u < TWO32
  {
    if n >= 0 then n else n + TWO32
  }

  /** Cutting a concatenation at its seam. */
  lemma SplitAt<T>(a: seq<T>, b: seq<T>)
    ensures (a + b)[..|a|] == a && (a + b)[|a|..] == b
  {
  }

  /** Two concatenations that agree and whose heads have equal length agree piecewise. */
  lemma ConcatCancel<T>(a: seq<T>, r: seq<T>, b: seq<T>, s: seq<T>)
    requires a + r == b + s && |a| == |b|
    ensures a == b && r == s
  {
    SplitAt(a, r);
    SplitAt(b, s);
  }

  /** Where a cursor at |pre| stands in a buffer, before and after it passes `x`. */
  lemma Regroup<T>(pre: seq<T>, x: seq<T>, y: seq<T>, rest: seq<T>, b: seq<T>)
    requires b == pre + (x + y) + rest
    ensures |b| >= |pre| + |x| && b[|pre|..] == x + (y + rest) && b == (pre + x) + y + rest
  {
  }

  lemma MulMono(x: int, y: int, c: int)
    requires x <= y && c >= 0
    ensures x * c <= y * c && c * x <= c * y
  {
  }
}
