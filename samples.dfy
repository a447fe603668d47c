// Shared value types: the Option/Result wrappers and the arithmetic of the
// 16-bit `sample_t` samples that every audio path of the system uses.

module Wrappers {

  datatype Option<T> = None | Some(value: T)

  datatype Result<T, E> = Ok(value: T) | Err(error: E)
}

module Samples {

  const SampleMin: int := -32768
  const SampleMax: int := 32767

  /** A value representable as a C `int16_t`. */
  predicate IsSample(x: int) { SampleMin <= x <= SampleMax }

  /** Conversion of an `int` to `int16_t`, two's complement wrap-around
      (what the compilers targeted by the system do on narrowing). */
  function Wrap16(x: int): (r: int)
    ensures IsSample(r)
    ensures (r - x) % 65536 == 0
    ensures IsSample(x) ==> r == x
  {
    (x + 32768) % 65536 - 32768
  }

  /** Conversion to `int32_t`, two's complement wrap-around. */
  function Wrap32(x: int): (r: int)
    ensures -0x8000_0000 <= r < 0x8000_0000
    ensures (r - x) % 0x1_0000_0000 == 0
    ensures -0x8000_0000 <= x < 0x8000_0000 ==> r == x
  {
    (x + 0x8000_0000) % 0x1_0000_0000 - 0x8000_0000
  }

  /** Wrapping twice is wrapping once: rounding an intermediate sum to 16 bits
      does not change the final 16-bit result. */
  lemma {:induction false} Wrap16Add(a: int, b: int)
    ensures Wrap16(Wrap16(a) + b) == Wrap16(a + b)
  {
    var k := (Wrap16(a) - a) / 65536;
    assert Wrap16(a) == a + 65536 * k;
    assert Wrap16(a) + b + 32768 == (a + b + 32768) + 65536 * k;
    ModShift(a + b + 32768, k);
  }

  lemma {:induction false} ModShift(x: int, k: int)
    ensures (x + 65536 * k) % 65536 == x % 65536
    decreases if k < 0 then -k else k
  {
    if k > 0 {
      ModShift(x, k - 1);
      assert x + 65536 * k == (x + 65536 * (k - 1)) + 65536;
    } else if k < 0 {
      ModShift(x, k + 1);
      assert x + 65536 * k + 65536 == x + 65536 * (k + 1);
    }
  }

  /** C integer division of `a` by a positive `b`: truncation toward zero
      (Dafny's `/` is Euclidean). */
  function TruncDiv(a: int, b: int): (r: int)
    requires b > 0
    ensures a >= 0 ==> r == a / b
    ensures a < 0 ==> r == -((-a) / b)
  {
    if a >= 0 then a / b else -((-a) / b)
  }

  /** Scaling by `k / n` with `0 <= k < n` never increases the magnitude. */
  lemma ScaleShrinks(x: int, k: nat, n: nat)
    requires k < n
    ensures -Abs(x) <= TruncDiv(x * k, n) <= Abs(x)
  {
    var m := Abs(x);
    var a := x * k;
    var b := m * k;
    MulLe(m, k, n);
    DivMono(b, m, n);
    if x < 0 {
      NegMul(x, k);
      assert a == -b;
      assert TruncDiv(a, n) == -(b / n);
    } else {
      assert a == b;
      assert TruncDiv(a, n) == b / n;
    }
  }

  lemma NegMul(x: int, k: nat)
    ensures x * k == -((-x) * k)
  {
  }

  lemma MulLe(m: nat, k: nat, n: nat)
    requires k <= n
    ensures m * k <= m * n
  {
  }

  lemma DivMono(a: nat, x: nat, n: nat)
    requires n > 0 && a <= x * n
    ensures a / n <= x
  {
  }

  /** Quotient and remainder are unique: `y == q * n + r` with `0 <= r < n`
      fixes `y / n` and `y % n`. */
  lemma DivModUnique(y: int, n: int, q: int, r: int)
    requires n > 0 && 0 <= r < n && y == q * n + r
    ensures y / n == q && y % n == r
  {
    var d := q - y / n;
    assert y == n * (y / n) + y % n;
    assert d * n == y % n - r;
    if d >= 1 {
      MulAtLeast(d, n);
    } else if d <= -1 {
      MulAtLeast(-d, n);
    }
  }

  /** One more block of `n` samples starts `n` samples later. */
  lemma MulSucc(q: nat, n: nat)
    ensures q * n >= 0 && q * n + n == (q + 1) * n
  {
  }

  lemma MulAtLeast(d: int, n: int)
    requires d >= 1 && n > 0
    ensures d * n >= n
  {
  }

  function Abs(x: int): int { if x < 0 then -x else x }

  /** A silent block of `n` samples. */
  function Zeros(n: nat): (r: seq<int>)
    ensures |r| == n && forall i :: 0 <= i < n ==> r[i] == 0
  {
    if n == 0 then [] else Zeros(n - 1) + [0]
  }

  /** Element-wise `a[i] += b[i]` on `sample_t` arrays. */
  function AddBlocks(a: seq<int>, b: seq<int>): (r: seq<int>)
    requires |a| == |b|
    ensures |r| == |a|
    ensures forall i :: 0 <= i < |a| ==> r[i] == Wrap16(a[i] + b[i])
  {
    if |a| == 0 then [] else AddBlocks(a[..|a| - 1], b[..|b| - 1]) + [Wrap16(a[|a| - 1] + b[|b| - 1])]
  }

  /** The sample stream made of consecutive blocks. */
  function Flatten(bs: seq<seq<int>>): seq<int>
  {
    if bs == [] then [] else bs[0] + Flatten(bs[1..])
  }
}
