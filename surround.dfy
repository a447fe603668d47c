// The stereo panner of src/surround.hpp: each client's mono block is turned
// into an interleaved stereo block by a fixed-point gain per ear and an
// inter-aural delay of a few samples, taken from one block of lookback.

module Surround {
  import opened Samples

  /** The read offsets `(iL, iR)` of the first output sample for a phase
      shift `p`: exactly one ear lags, by `|p|` samples (the left one when
      `p < 0`, the right one when `p > 0`), and the other one does not. */
  function Offsets(p: int): (r: (int, int))
    ensures r.0 <= 0 && r.1 <= 0
    ensures r.0 == 0 || r.1 == 0
    ensures r.0 + r.1 == -Abs(p)
    ensures p < 0 <==> r.0 < 0
    ensures p > 0 <==> r.1 < 0
  {
    var iL := if p < 0 then p else 0;
    (iL, iL - p)
  }

  /** The input sample at offset `k` of the current block: a negative `k`
      reaches back into the tail of the previous block. Seen as a stream,
      it is the sample `k` places after the start of `mono`. */
  function Source(prev: seq<int>, mono: seq<int>, k: int): (r: int)
    requires |prev| == |mono| && -|mono| <= k < |mono|
    ensures r == (prev + mono)[|mono| + k]
  {
    if k < 0 then prev[|mono| + k] else mono[k]
  }

  /** `(x * mult) >> 16` stored in a `sample_t`: the `int` product wraps to
      32 bits and `>>` on a negative `int` shifts arithmetically; the shifted
      value always fits 16 bits, so the store does not wrap. */
  function Scale(x: int, mult: int): (r: int)
    ensures IsSample(r)
  {
    Wrap32(x * mult) / 0x1_0000
  }

  /** The shift rounds toward minus infinity; without 32-bit overflow the
      result is the exact product rounded down to 16.16 fixed point. */
  lemma ScaleRoundsDown(x: int, mult: int)
    ensures var r := Scale(x, mult);
      r * 0x1_0000 <= Wrap32(x * mult) < r * 0x1_0000 + 0x1_0000 &&
      (-0x8000_0000 <= x * mult < 0x8000_0000 ==> r * 0x1_0000 <= x * mult < r * 0x1_0000 + 0x1_0000)
  {
  }

  /** One ear of the output: sample `i` is the scaled input sample at
      offset `i + off`, which lies in the current block or, for the first
      `-off` samples, in the tail of the previous one. */
  function Channel(prev: seq<int>, mono: seq<int>, off: int, mult: int): (r: seq<int>)
    requires |prev| == |mono| && -|mono| <= off <= 0
    ensures |r| == |mono|
    ensures forall i :: 0 <= i < |mono| ==> r[i] == Scale(Source(prev, mono, i + off), mult)
  {
    seq(|mono|, i requires 0 <= i < |mono| => Scale(Source(prev, mono, i + off), mult))
  }

  /** Left and right samples alternate: left `i` at `2i`, right `i` at `2i + 1`. */
  function Interleave(l: seq<int>, r: seq<int>): (out: seq<int>)
    requires |l| == |r|
    ensures |out| == 2 * |l|
  {
    seq(2 * |l|, j requires 0 <= j < 2 * |l| => if j % 2 == 0 then l[j / 2] else r[j / 2])
  }

  lemma InterleaveAt(l: seq<int>, r: seq<int>, i: nat)
    requires |l| == |r| && i < |l|
    ensures Interleave(l, r)[2 * i] == l[i] && Interleave(l, r)[2 * i + 1] == r[i]
  {
    var out := Interleave(l, r);
    assert (2 * i) % 2 == 0 && (2 * i) / 2 == i;
    assert (2 * i + 1) % 2 == 1 && (2 * i + 1) / 2 == i;
  }

  /** A sequence holding `l` at the even and `r` at the odd positions is
      their interleaving. */
  lemma InterleaveEq(l: seq<int>, r: seq<int>, out: seq<int>)
    requires |l| == |r| && |out| == 2 * |l|
    requires forall i :: 0 <= i < |l| ==> out[2 * i] == l[i] && out[2 * i + 1] == r[i]
    ensures out == Interleave(l, r)
  {
    forall j | 0 <= j < |out|
      ensures out[j] == Interleave(l, r)[j]
    {
      var i := j / 2;
      assert j == 2 * i || j == 2 * i + 1;
      InterleaveAt(l, r, i);
    }
  }

  /** The stereo block `surroundFilter` writes for input `mono`, given the
      previous input block `prev`. */
  function Filtered(prev: seq<int>, mono: seq<int>, p: int, multL: int, multR: int): (out: seq<int>)
    requires |prev| == |mono| && -|mono| <= p <= |mono|
    ensures |out| == 2 * |mono|
  {
    Interleave(Channel(prev, mono, Offsets(p).0, multL), Channel(prev, mono, Offsets(p).1, multR))
  }

  /** With no phase shift both ears hear the current block only, sample by
      sample: the previous block plays no part. */
  lemma ZeroShiftPointwise(prev: seq<int>, prev': seq<int>, mono: seq<int>, multL: int, multR: int, i: nat)
    requires |prev| == |prev'| == |mono| && i < |mono|
    ensures Filtered(prev, mono, 0, multL, multR)[2 * i] == Scale(mono[i], multL)
    ensures Filtered(prev, mono, 0, multL, multR)[2 * i + 1] == Scale(mono[i], multR)
    ensures Filtered(prev, mono, 0, multL, multR) == Filtered(prev', mono, 0, multL, multR)
  {
    InterleaveAt(Channel(prev, mono, 0, multL), Channel(prev, mono, 0, multR), i);
    assert (prev + mono)[|mono| + i] == mono[i];
    CurrentBlockOnly(prev, prev', mono, multL);
    CurrentBlockOnly(prev, prev', mono, multR);
  }

  lemma CurrentBlockOnly(prev: seq<int>, prev': seq<int>, mono: seq<int>, mult: int)
    requires |prev| == |prev'| == |mono|
    ensures Channel(prev, mono, 0, mult) == Channel(prev', mono, 0, mult)
  {
    var c, c' := Channel(prev, mono, 0, mult), Channel(prev', mono, 0, mult);
    forall i | 0 <= i < |mono|
      ensures c[i] == c'[i]
    {
      assert (prev + mono)[|mono| + i] == (prev' + mono)[|mono| + i];
    }
  }

  /** The outputs of consecutive `surroundFilter` calls on the blocks `bs`,
      starting from the lookback block `prev`. */
  function Run(prev: seq<int>, bs: seq<seq<int>>, p: int, multL: int, multR: int): (outs: seq<seq<int>>)
    requires |prev| > 0 && -|prev| <= p <= |prev|
    requires forall b <- bs :: |b| == |prev|
    ensures |outs| == |bs|
    ensures forall o <- outs :: |o| == 2 * |prev|
    decreases |bs|
  {
    if bs == [] then []
    else [Filtered(prev, bs[0], p, multL, multR)] + Run(bs[0], bs[1..], p, multL, multR)
  }

  /** Call `j` looks back at the block given to call `j - 1`. */
  lemma {:induction false} RunLooksBack(prev: seq<int>, bs: seq<seq<int>>, p: int, multL: int, multR: int, j: nat)
    requires |prev| > 0 && -|prev| <= p <= |prev|
    requires forall b <- bs :: |b| == |prev|
    requires j < |bs|
    ensures Run(prev, bs, p, multL, multR)[j] == Filtered(([prev] + bs)[j], ([prev] + bs)[j + 1], p, multL, multR)
    decreases j
  {
    if j > 0 {
      RunLooksBack(bs[0], bs[1..], p, multL, multR, j - 1);
      assert ([bs[0]] + bs[1..])[j - 1] == ([prev] + bs)[j];
      assert ([bs[0]] + bs[1..])[j] == ([prev] + bs)[j + 1];
    }
  }

  /** Stream position of the first sample of block `j`, for blocks of `n`
      samples. */
  function BlockStart(j: nat, n: nat): (r: nat)
  {
    if j == 0 then 0 else BlockStart(j - 1, n) + n
  }

  /** Block `j` starts `j * n` samples into the stream. */
  lemma {:induction false} BlockStartIsProduct(j: nat, n: nat)
    ensures BlockStart(j, n) == j * n
  {
    if j > 0 {
      BlockStartIsProduct(j - 1, n);
      MulSucc(j - 1, n);
    }
  }

  /** Position `BlockStart(j, n) + k` of a stream of `n`-sample blocks is
      sample `k` of block `j`. */
  lemma {:induction false} FlattenIndex(xs: seq<seq<int>>, n: nat, j: nat, k: nat)
    requires forall b <- xs :: |b| == n
    requires j < |xs| && k < n
    ensures BlockStart(j, n) + k < |Flatten(xs)| && Flatten(xs)[BlockStart(j, n) + k] == xs[j][k]
    decreases j
  {
    assert Flatten(xs) == xs[0] + Flatten(xs[1..]);
    if j > 0 {
      FlattenIndex(xs[1..], n, j - 1, k);
    }
  }

  /** Across consecutive calls each ear hears the input stream (the initial
      lookback block followed by the blocks given) delayed by its offset:
      output sample `i` of call `j`, at stream position `t = (j + 1) * n + i`
      (`BlockStart(j + 1, n) + i`), is taken from stream position `t + iL` on
      the left, so when `phaseShift < 0` the left ear is exactly
      `|phaseShift|` samples late and otherwise on time. */
  lemma LeftEarDelay(prev: seq<int>, bs: seq<seq<int>>, p: int, multL: int, multR: int, j: nat, i: nat)
    requires |prev| > 0 && -|prev| <= p <= |prev|
    requires forall b <- bs :: |b| == |prev|
    requires j < |bs| && i < |prev|
    ensures var t, s := BlockStart(j + 1, |prev|) + i, Flatten([prev] + bs);
      0 <= t + Offsets(p).0 < |s| &&
      Run(prev, bs, p, multL, multR)[j][2 * i] == Scale(s[t + Offsets(p).0], multL)
  {
    var xs := [prev] + bs;
    assert forall b <- xs :: |b| == |prev|;
    RunEars(prev, bs, p, multL, multR, j, i);
    ChannelStream(xs, |prev|, j, Offsets(p).0, multL, i);
  }

  /** The right ear, at `2i + 1`, reads stream position `t + iR`: it is
      exactly `phaseShift` samples late when `phaseShift > 0` and otherwise
      on time. */
  lemma RightEarDelay(prev: seq<int>, bs: seq<seq<int>>, p: int, multL: int, multR: int, j: nat, i: nat)
    requires |prev| > 0 && -|prev| <= p <= |prev|
    requires forall b <- bs :: |b| == |prev|
    requires j < |bs| && i < |prev|
    ensures var t, s := BlockStart(j + 1, |prev|) + i, Flatten([prev] + bs);
      0 <= t + Offsets(p).1 < |s| &&
      Run(prev, bs, p, multL, multR)[j][2 * i + 1] == Scale(s[t + Offsets(p).1], multR)
  {
    var xs := [prev] + bs;
    assert forall b <- xs :: |b| == |prev|;
    RunEars(prev, bs, p, multL, multR, j, i);
    ChannelStream(xs, |prev|, j, Offsets(p).1, multR, i);
  }

  /** Output sample `i` of call `j`, per ear. */
  lemma RunEars(prev: seq<int>, bs: seq<seq<int>>, p: int, multL: int, multR: int, j: nat, i: nat)
    requires |prev| > 0 && -|prev| <= p <= |prev|
    requires forall b <- bs :: |b| == |prev|
    requires j < |bs| && i < |prev|
    ensures var xs := [prev] + bs;
      Run(prev, bs, p, multL, multR)[j][2 * i] == Channel(xs[j], xs[j + 1], Offsets(p).0, multL)[i] &&
      Run(prev, bs, p, multL, multR)[j][2 * i + 1] == Channel(xs[j], xs[j + 1], Offsets(p).1, multR)[i]
  {
    var xs := [prev] + bs;
    RunLooksBack(prev, bs, p, multL, multR, j);
    InterleaveAt(Channel(xs[j], xs[j + 1], Offsets(p).0, multL), Channel(xs[j], xs[j + 1], Offsets(p).1, multR), i);
  }

  /** Sample `i` of one ear around block `j + 1` of a stream of `n`-sample
      blocks comes from stream position `BlockStart(j + 1, n) + i + off`. */
  lemma ChannelStream(xs: seq<seq<int>>, n: nat, j: nat, off: int, mult: int, i: nat)
    requires forall b <- xs :: |b| == n
    requires j + 1 < |xs| && -(n as int) <= off <= 0 && i < n
    ensures 0 <= BlockStart(j + 1, n) + i + off < |Flatten(xs)|
    ensures Channel(xs[j], xs[j + 1], off, mult)[i] == Scale(Flatten(xs)[BlockStart(j + 1, n) + i + off], mult)
  {
    var k := i + off;
    assert BlockStart(j + 1, n) == BlockStart(j, n) + n;
    assert (xs[j] + xs[j + 1])[n + k] == if k < 0 then xs[j][n + k] else xs[j + 1][k];
    if k < 0 {
      FlattenIndex(xs, n, j, n + k);
    } else {
      FlattenIndex(xs, n, j + 1, k);
    }
  }

  /** `struct surroundCtx`: the gains and delay of one client, set by
      `surroundInitCtx`, and the lookback block updated by every call. */
  class SurroundCtx {
    /** MONO_BLOCK_SIZE. */
    const n: nat
    /** `signed char phaseShift`. */
    var phaseShift: int
    /** `int32_t multL`, `multR`: 16.16 fixed-point gains. */
    var multL: int
    var multR: int
    const prevMonoBlock: array<int>

    ghost predicate Valid()
      reads this
    {
      n > 0 && prevMonoBlock.Length == n &&
      -128 <= phaseShift <= 127 && -(n as int) <= phaseShift <= n &&
      -0x8000_0000 <= multL < 0x8000_0000 && -0x8000_0000 <= multR < 0x8000_0000
    }

    /** A context as `surroundInitCtx` leaves it, for gains and shift
        already computed, with a silent lookback block. */
    constructor (n: nat, phaseShift: int, multL: int, multR: int)
      requires n > 0 && -128 <= phaseShift <= 127 && -(n as int) <= phaseShift <= n
      requires -0x8000_0000 <= multL < 0x8000_0000 && -0x8000_0000 <= multR < 0x8000_0000
      ensures Valid() && fresh(prevMonoBlock)
      ensures this.n == n && this.phaseShift == phaseShift && this.multL == multL && this.multR == multR
      ensures prevMonoBlock[..] == Zeros(n)
    {
      this.n := n;
      this.phaseShift := phaseShift;
      this.multL := multL;
      this.multR := multR;
      prevMonoBlock := new int[n](_ => 0);
    }

    /** `surroundFilter`: writes the stereo block and keeps the input as the
        next call's lookback block. */
    method Filter(mono: array<int>, out: array<int>)
      requires Valid()
      requires mono.Length == n && out.Length == 2 * n
      requires mono != prevMonoBlock && out != prevMonoBlock && out != mono
      modifies prevMonoBlock, out
      ensures Valid()
      ensures out[..] == Filtered(old(prevMonoBlock[..]), mono[..], phaseShift, multL, multR)
      ensures prevMonoBlock[..] == mono[..]
    {
      ghost var prev, input := prevMonoBlock[..], mono[..];
      ghost var left := Channel(prev, input, Offsets(phaseShift).0, multL);
      ghost var right := Channel(prev, input, Offsets(phaseShift).1, multR);
      ghost var want := Filtered(prev, input, phaseShift, multL, multR);
      assert want == Interleave(left, right);
      var iL := if phaseShift < 0 then phaseShift else 0;
      var iR := iL - phaseShift;
      var i := 0;
      while i < n
        modifies out
        invariant 0 <= i <= n
        invariant iL == i + Offsets(phaseShift).0 && iR == i + Offsets(phaseShift).1
        invariant forall k :: 0 <= k < i ==> out[2 * k] == left[k] && out[2 * k + 1] == right[k]
      {
        var sL := if iL < 0 then prevMonoBlock[n + iL] else mono[iL];
        var sR := if iR < 0 then prevMonoBlock[n + iR] else mono[iR];
        assert sL == Source(prev, input, iL) && sR == Source(prev, input, iR);
        out[2 * i] := Scale(sL, multL);
        out[2 * i + 1] := Scale(sR, multR);
        i, iL, iR := i + 1, iL + 1, iR + 1;
      }
      InterleaveEq(left, right, out[..]);
      Remember(mono);
    }

    /** The `memcpy` of the input block into `prevMonoBlock`. */
    method Remember(mono: array<int>)
      requires Valid() && mono.Length == n && mono != prevMonoBlock
      modifies prevMonoBlock
      ensures Valid()
      ensures prevMonoBlock[..] == mono[..]
    {
      forall k | 0 <= k < n {
        prevMonoBlock[k] := mono[k];
      }
    }
  }
}
