// The latency measurement of audioIO.h: while a measurement runs, every
// input block is scanned for the loudest stretch of `BEEP_SAMPLES` samples
// (a sliding window of energy, kept as a ring of running sums of squares)
// and overwritten by the test signal: silence, a beep, silence again.

module AudioIO {
  import opened Samples

  /** Sum of the squares of the samples of `h`. */
  ghost function SumSq(h: seq<int>): (r: nat)
  {
    if h == [] then 0 else SumSq(h[..|h| - 1]) + h[|h| - 1] * h[|h| - 1]
  }

  /** `aioLatSqSum` just after sample `m` was added: the energy of samples
      `0..m`. */
  ghost function RunningSum(h: seq<int>, m: nat): nat
    requires m < |h|
  {
    SumSq(h[..m + 1])
  }

  /** Energy of the window of `beep` samples that follows sample `s`, that is
      samples `s + 1 .. s + beep`. */
  ghost function Window(h: seq<int>, beep: nat, s: nat): nat
    requires s + beep < |h|
  {
    SumSq(h[s + 1..s + beep + 1])
  }

  /** `best` is the largest energy of a window starting at `1 ..` that lies
      inside `h`, and `at` the first start reaching it (0 while no window
      has any energy). */
  ghost predicate IsPeak(h: seq<int>, beep: nat, best: nat, at: nat)
  {
    (forall s: nat :: 1 <= s && s + beep < |h| ==> Window(h, beep, s) <= best) &&
    (best == 0 ==> at == 0) &&
    (best > 0 ==>
      1 <= at && at + beep < |h| && Window(h, beep, at) == best &&
      forall s: nat :: 1 <= s < at ==> Window(h, beep, s) < best)
  }

  /** Energy adds up over consecutive stretches. */
  lemma {:induction false} SumSqAppend(a: seq<int>, b: seq<int>)
    ensures SumSq(a + b) == SumSq(a) + SumSq(b)
    decreases |b|
  {
    if b == [] {
      assert a + b == a;
    } else {
      var b' := b[..|b| - 1];
      SumSqAppend(a, b');
      assert (a + b)[..|a + b| - 1] == a + b';
    }
  }

  /** The ring difference `aioLatSqSum - aioLatSqSums[pos % BEEP_SAMPLES]`
      is the energy of the last `beep` samples. */
  lemma WindowFromRing(h: seq<int>, beep: nat, s: nat)
    requires s + beep < |h|
    ensures Window(h, beep, s) == RunningSum(h, s + beep) - RunningSum(h, s)
  {
    assert h[..s + beep + 1] == h[..s + 1] + h[s + 1..s + beep + 1];
    SumSqAppend(h[..s + 1], h[s + 1..s + beep + 1]);
  }

  lemma RunningSumStable(h: seq<int>, x: int, m: nat)
    requires m < |h|
    ensures RunningSum(h + [x], m) == RunningSum(h, m)
  {
    assert (h + [x])[..m + 1] == h[..m + 1];
  }

  lemma WindowStable(h: seq<int>, x: int, beep: nat, s: nat)
    requires s + beep < |h|
    ensures Window(h + [x], beep, s) == Window(h, beep, s)
  {
    assert (h + [x])[s + 1..s + beep + 1] == h[s + 1..s + beep + 1];
  }

  /** One step of the strict-`>` maximum update keeps `IsPeak`: after sample
      `|h|` arrives, the window ending at it (start `|h| - beep`) is compared
      once `|h| > beep`, and replaces the peak only when strictly larger, so
      the first window reaching the maximum is the one remembered. */
  lemma PeakExtend(h: seq<int>, x: int, beep: nat, best: nat, at: nat)
    requires IsPeak(h, beep, best, at)
    ensures var h' := h + [x];
      if |h| > beep then
        var s := |h| - beep;
        var diff := Window(h', beep, s);
        if diff > best then IsPeak(h', beep, diff, s) else IsPeak(h', beep, best, at)
      else IsPeak(h', beep, best, at)
  {
    var h' := h + [x];
    forall s: nat | 1 <= s && s + beep < |h|
      ensures Window(h', beep, s) == Window(h, beep, s)
    {
      WindowStable(h, x, beep, s);
    }
  }

  /** `IsPeak` pins down both the peak energy and its position. */
  lemma PeakUnique(h: seq<int>, beep: nat, best: nat, at: nat, best': nat, at': nat)
    requires IsPeak(h, beep, best, at) && IsPeak(h, beep, best', at')
    ensures best == best' && at == at'
  {
    if best > 0 {
      assert Window(h, beep, at) == best <= best';
    }
    if best' > 0 {
      assert Window(h, beep, at') == best' <= best;
    }
  }

  lemma HeardGrows(h0: seq<int>, input: seq<int>, i: nat)
    requires i < |input|
    ensures (h0 + input[..i]) + [input[i]] == h0 + input[..i + 1]
  {
    assert input[..i + 1] == input[..i] + [input[i]];
  }

  /** Ring slots of the last `b` positions are distinct. */
  lemma ModDistinct(m: nat, q: nat, b: nat)
    requires m < q < m + b
    ensures m % b != q % b
  {
    if m % b == q % b {
      var d := q / b - m / b;
      assert q - m == d * b;
      if d >= 1 {
        MulAtLeast(d, b);
      }
    }
  }

  lemma ModBack(q: nat, b: nat)
    requires 0 < b <= q
    ensures (q - b) % b == q % b
  {
    DivModUnique(q, b, (q - b) / b + 1, (q - b) % b);
  }

  /** The sample written back at position `q` (counted from 1 since the
      reset): silence for the first `wait` samples, the beep (`-30000` or
      `30000`, as the opaque square wave `tone` says) for `beep` samples, and
      silence after. */
  function Emitted(wait: nat, beep: nat, q: nat, tone: nat -> bool): (y: int)
  {
    if q < wait then 0
    else if q < wait + beep then (if tone(q) then -30000 else 30000)
    else 0
  }

  /** The test signal is a valid sample, non-zero exactly during the beep,
      and then `-30000` exactly in the low half-periods of the tone. */
  lemma EmittedShape(wait: nat, beep: nat, q: nat, tone: nat -> bool)
    ensures var y := Emitted(wait, beep, q, tone);
      IsSample(y) && (y != 0 <==> wait <= q < wait + beep) && (y != 0 ==> (y == -30000 <==> tone(q)))
  {
  }

  /** The `n` samples `aioLatBlock` writes over a block when `p` samples
      were heard before it. */
  function TestSignal(wait: nat, beep: nat, p: nat, n: nat, tone: nat -> bool): seq<int>
  {
    seq(n, i requires 0 <= i < n => Emitted(wait, beep, p + i + 1, tone))
  }

  /** The globals `aioLatSqSums`, `aioLatSqSum`, `aioLatPos`,
      `aioLatMaxDiff`, `aioLatMaxDiffPos` and `aioLatBufferLatBlocksSum`. */
  class LatencyMeter {
    /** MONO_BLOCK_SIZE. */
    const n: nat
    /** WAIT_SAMPLES and BEEP_SAMPLES. */
    const wait: nat
    const beep: nat
    const sqSums: array<int>
    var sqSum: nat
    var pos: nat
    var maxDiff: nat
    var maxDiffPos: nat
    var bufferLatBlocksSum: int
    /** The input samples since the last reset. */
    ghost var heard: seq<int>

    ghost predicate Valid()
      reads this`sqSum, this`pos, this`maxDiff, this`maxDiffPos, this`heard, sqSums
    {
      n > 0 && wait == 10 * n && beep == 20 * n && sqSums.Length == beep &&
      pos == |heard| && sqSum == SumSq(heard) &&
      (forall m: nat :: m < pos <= m + beep ==> sqSums[m % beep] == RunningSum(heard, m)) &&
      IsPeak(heard, beep, maxDiff, maxDiffPos)
    }

    /** The accumulators as the program starts them. */
    constructor (n: nat)
      requires n > 0
      ensures Valid() && fresh(sqSums) && this.n == n && heard == []
      ensures sqSum == 0 && pos == 0 && maxDiff == 0 && maxDiffPos == 0 && bufferLatBlocksSum == 0
    {
      this.n := n;
      wait := 10 * n;
      beep := 20 * n;
      sqSums := new int[20 * n](_ => 0);
      sqSum, pos, maxDiff, maxDiffPos, bufferLatBlocksSum := 0, 0, 0, 0, 0;
      heard := [];
    }

    /** One iteration of the loop of `aioLatBlock`: account for input
        sample `x` and return the sample that replaces it. */
    method Measure(x: int, tone: nat -> bool) returns (y: int)
      requires Valid()
      modifies this`sqSum, this`pos, this`maxDiff, this`maxDiffPos, this`heard, sqSums
      ensures Valid()
      ensures heard == old(heard) + [x]
      ensures y == Emitted(wait, beep, pos, tone)
    {
      ghost var h := heard;
      ghost var h' := heard + [x];
      assert h'[..|h'| - 1] == h;
      sqSum := sqSum + x * x;
      assert h'[..pos + 1] == h';
      Track(h, x);
      Store(h, x);
      y := Emitted(wait, beep, pos, tone);
    }

    /** The peak update of one loop iteration. */
    method Track(ghost h: seq<int>, ghost x: int)
      requires n > 0 && wait == 10 * n && beep == 20 * n && sqSums.Length == beep
      requires pos == |h| && sqSum == RunningSum(h + [x], pos)
      requires forall m: nat :: m < pos <= m + beep ==> sqSums[m % beep] == RunningSum(h, m)
      requires IsPeak(h, beep, maxDiff, maxDiffPos)
      modifies this`maxDiff, this`maxDiffPos
      ensures IsPeak(h + [x], beep, maxDiff, maxDiffPos)
    {
      PeakExtend(h, x, beep, maxDiff, maxDiffPos);
      if pos > beep {
        Compare(h, x);
      }
    }

    /** The window comparison of one loop iteration. */
    method Compare(ghost h: seq<int>, ghost x: int)
      requires n > 0 && wait == 10 * n && beep == 20 * n && sqSums.Length == beep
      requires pos == |h| > beep && sqSum == RunningSum(h + [x], pos)
      requires forall m: nat :: m < pos <= m + beep ==> sqSums[m % beep] == RunningSum(h, m)
      modifies this`maxDiff, this`maxDiffPos
      ensures var s := pos - beep; var diff := Window(h + [x], beep, s);
        if diff > old(maxDiff) then maxDiff == diff && maxDiffPos == s
        else maxDiff == old(maxDiff) && maxDiffPos == old(maxDiffPos)
    {
      var s := pos - beep;
      ModBack(pos, beep);
      RunningSumStable(h, x, s);
      WindowFromRing(h + [x], beep, s);
      var diff := sqSum - sqSums[pos % beep];
      if diff > maxDiff {
        maxDiff := diff;
        maxDiffPos := pos - beep;
      }
    }

    /** `aioLatSqSums[aioLatPos++ % BEEP_SAMPLES] = aioLatSqSum`. */
    method Store(ghost h: seq<int>, ghost x: int)
      requires n > 0 && beep > 0 && sqSums.Length == beep
      requires pos == |h| && sqSum == RunningSum(h + [x], pos)
      requires forall m: nat :: m < pos <= m + beep ==> sqSums[m % beep] == RunningSum(h, m)
      modifies this`pos, this`heard, sqSums
      ensures pos == old(pos) + 1 && heard == h + [x]
      ensures forall m: nat :: m < pos <= m + beep ==> sqSums[m % beep] == RunningSum(heard, m)
    {
      ghost var h' := h + [x];
      sqSums[pos % beep] := sqSum;
      forall m: nat | m < pos + 1 <= m + beep
        ensures sqSums[m % beep] == RunningSum(h', m)
      {
        if m < pos {
          ModDistinct(m, pos, beep);
          RunningSumStable(h, x, m);
        }
      }
      pos := pos + 1;
      heard := h';
    }

    /** Sample `i` of the block is measured and overwritten in place. */
    method MeasureAt(block: array<int>, i: nat, tone: nat -> bool)
      requires Valid() && i < block.Length && block != sqSums
      modifies this`sqSum, this`pos, this`maxDiff, this`maxDiffPos, this`heard, sqSums, block
      ensures Valid()
      ensures heard == old(heard) + [old(block[i])] && pos == old(pos) + 1
      ensures block[i] == Emitted(wait, beep, pos, tone)
      ensures forall k :: 0 <= k < block.Length && k != i ==> block[k] == old(block[k])
    {
      var y := Measure(block[i], tone);
      block[i] := y;
    }

    /** `aioLatBlock`: measures the energy of every input sample before
        overwriting it with the test signal, and adds the buffer latency of
        this block to the running total. */
    method Block(block: array<int>, bufferLatBlocks: int, tone: nat -> bool)
      requires Valid() && block.Length == n && block != sqSums
      modifies this, sqSums, block
      ensures Valid()
      ensures heard == old(heard) + old(block[..]) && pos == old(pos) + n
      ensures forall i :: 0 <= i < n ==> block[i] == Emitted(wait, beep, old(pos) + i + 1, tone)
      ensures bufferLatBlocksSum == old(bufferLatBlocksSum) + bufferLatBlocks
    {
      MeasureAll(block, tone);
      bufferLatBlocksSum := bufferLatBlocksSum + bufferLatBlocks;
    }

    /** The sample loop of `aioLatBlock`. */
    method MeasureAll(block: array<int>, tone: nat -> bool)
      requires Valid() && block.Length == n && block != sqSums
      modifies this`sqSum, this`pos, this`maxDiff, this`maxDiffPos, this`heard, sqSums, block
      ensures Valid()
      ensures heard == old(heard) + old(block[..]) && pos == old(pos) + n
      ensures forall i :: 0 <= i < n ==> block[i] == Emitted(wait, beep, old(pos) + i + 1, tone)
    {
      ghost var input := block[..];
      ghost var h0, p0 := heard, pos;
      var i := 0;
      while i < n
        invariant 0 <= i <= n && Valid()
        invariant heard == h0 + input[..i] && pos == p0 + i
        invariant forall k :: i <= k < n ==> block[k] == input[k]
        invariant forall k :: 0 <= k < i ==> block[k] == Emitted(wait, beep, p0 + k + 1, tone)
      {
        HeardGrows(h0, input, i);
        MeasureAt(block, i, tone);
        i := i + 1;
      }
      assert input[..n] == input;
    }

    /** `aioLatReset`: reports whether enough samples were heard for a
        result (the result itself is computed in floating point) and zeroes
        the five accumulators; the ring keeps its stale contents, which no
        later comparison reads before they are rewritten. */
    method Reset() returns (measured: bool)
      requires Valid()
      modifies this
      ensures Valid()
      ensures measured <==> old(pos) > beep + wait
      ensures sqSum == 0 && pos == 0 && maxDiff == 0 && maxDiffPos == 0 && bufferLatBlocksSum == 0
      ensures heard == []
    {
      measured := pos > beep + wait;
      sqSum, pos, maxDiff, maxDiffPos, bufferLatBlocksSum := 0, 0, 0, 0, 0;
      heard := [];
    }
  }
}
