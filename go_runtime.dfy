/** The few pieces of Go's semantics the recovery routine depends on: 64-bit `int`
    arithmetic, byte slices with a length and a capacity, `make`, reslicing and
    `append`, and the `(value, error)` pair returned by fallible calls. */
module GoRuntime {

  const MinInt: int := -0x8000_0000_0000_0000
  const MaxInt: int := 0x7fff_ffff_ffff_ffff
  const Modulus: int := 0x1_0000_0000_0000_0000

  /** Go's `int` on a 64-bit target. */
  type Int = x: int | MinInt <= x <= MaxInt

  /** The value two's-complement `int` arithmetic yields where the exact result is `x`. */
  function Wrap(x: int): Int
  {
    (x - MinInt) % Modulus + MinInt
  }

  /** Wrapping changes a value by a whole multiple of 2^64. */
  lemma WrapOffset(x: int)
    ensures x - Wrap(x) == Modulus * ((x - MinInt) / Modulus)
  {
  }

  /** `K + M - K` evaluated with wrap-around is `M` again, for every pair of `int`s:
      an overflow in the addition is undone by the subtraction. */
  lemma {:induction false} AddSubCancels(k: Int, m: Int)
    ensures Wrap(Wrap(k + m) - k) == m
  {
    var a := Wrap(k + m);
    var q1 := (k + m - MinInt) / Modulus;
    var q2 := (a - k - MinInt) / Modulus;
    WrapOffset(k + m);
    WrapOffset(a - k);
    assert k + m - a == Modulus * q1;
    assert a - k - Wrap(a - k) == Modulus * q2;
    assert Wrap(a - k) == m - Modulus * (q1 + q2);
    assert -Modulus < Modulus * (q1 + q2) < Modulus;
  }

  /** Go's `(value, error)` result: either a value or a non-nil error, whose message is kept. */
  datatype Result<T> = Ok(value: T) | Err(error: string)

  newtype byte = b: int | 0 <= b < 256

  /** A Go `[]byte`: the elements up to its length (`data`), then the unused remainder of
      its backing array up to its capacity (`spare`). */
  datatype Slice = Slice(data: seq<byte>, spare: seq<byte>)
  {
    function Len(): nat { |data| }
    function Cap(): nat { |data| + |spare| }
    function Backing(): seq<byte> { data + spare }
  }

  /** The nil slice: length and capacity zero. */
  const Nil: Slice := Slice([], [])

  function Zeros(n: nat): (z: seq<byte>)
    ensures |z| == n
    ensures forall i :: 0 <= i < n ==> z[i] == 0
  {
    seq(n, _ => 0)
  }

  /** `make([]byte, 0, n)`: an empty slice whose whole backing array is zeroed. */
  function MakeEmpty(n: nat): (s: Slice)
    ensures s.Len() == 0 && s.Cap() == n
    ensures forall i :: 0 <= i < n ==> s.Backing()[i] == 0
  {
    Slice([], Zeros(n))
  }

  /** `s[:n]`, which Go allows exactly when `0 <= n <= cap(s)`: the first `n` elements
      of the backing array, which is shared and keeps the capacity. */
  function Reslice(s: Slice, n: int): (r: Slice)
    requires 0 <= n <= s.Cap()
    ensures r.Len() == n && r.Backing() == s.Backing()
    ensures forall i :: 0 <= i < n ==> r.data[i] == s.Backing()[i]
  {
    Slice(s.Backing()[..n], s.Backing()[n..])
  }

  /** `append(s, xs...)`. When the spare capacity suffices the elements are written into
      the same backing array, whose bytes past the new length are left as they were;
      otherwise they go to a fresh array (its extra capacity is not modelled). */
  function Append(s: Slice, xs: seq<byte>): (r: Slice)
    ensures r.data == s.data + xs
    ensures |xs| <= |s.spare| ==> r.Cap() == s.Cap() && r.spare == s.spare[|xs|..]
  {
    if |xs| <= |s.spare| then Slice(s.data + xs, s.spare[|xs|..])
    else Slice(s.data + xs, [])
  }
}
