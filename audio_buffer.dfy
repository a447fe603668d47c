// The per-client jitter ring buffer (audioBuffer.h; stereoBuffer.h is the
// same code at stereo width).  The pure functions over `BufState` are the
// specification; class `Buffer` is the in-place implementation over arrays,
// proved to follow them step by step.

module AudioBuffer {
  import opened Wrappers
  import opened Samples

  /** BUFFER_BLOCKS: number of slots of the ring. */
  const BufferBlocks: nat := 512

  /** The compile-time constants the header leaves to its includer:
      BLOCK_SIZE, BUFFER_SKIP_PERIOD and BUFFER_DES_JUMP_PERIOD. */
  datatype Params = Params(blockSize: nat, skipPeriod: nat, desJumpPeriod: nat)

  predicate ValidParams(p: Params)
  {
    p.blockSize > 0 && p.skipPeriod > 0 && p.desJumpPeriod > 0
  }

  /** Ring slot of a sequence index. */
  function Slot(pos: nat): nat
  {
    pos % BufferBlocks
  }

  /** Value view of `struct audioBuffer` without the floating-point level
      statistics.  `blockTime[k]` is the read time at which slot `k` was
      written, 0 when the slot is empty. */
  datatype BufState = BufState(
    readPos: nat, writeLastPos: nat, readTime: nat, lastJumpTime: nat,
    fade: bool, nullReads: int,
    srvWait: nat, srvSkip: nat, srvLost: nat, srvPlay: nat,
    blockTime: seq<nat>, data: seq<seq<int>>)

  predicate ValidState(p: Params, s: BufState)
  {
    && ValidParams(p)
    && |s.blockTime| == BufferBlocks
    && |s.data| == BufferBlocks
    && (forall k :: 0 <= k < BufferBlocks ==> |s.data[k]| == p.blockSize)
    && s.readTime >= 1
    && s.nullReads >= -1
  }

  predicate Filled(s: BufState, pos: nat)
    requires |s.blockTime| == BufferBlocks
  {
    s.blockTime[Slot(pos)] != 0
  }

  // ---------------------------------------------------------------- clear

  /** `n` empty slot markers. */
  function NoMarkers(n: nat): (r: seq<nat>)
    ensures |r| == n && forall k :: 0 <= k < n ==> r[k] == 0
  {
    seq(n, _ => 0)
  }

  /** State after `bufferClear(buf, readPos)`; sample data is left as it was. */
  function ClearedState(s: BufState, readPos: nat): BufState
  {
    BufState(readPos, 0, 1, 0, true, 0, 0, 0, 0, 0, NoMarkers(BufferBlocks), s.data)
  }

  /** A cleared buffer is valid and empty, and the first read after it
      returns silence without moving the read position. */
  lemma ClearedReadsSilence(p: Params, s: BufState, readPos: nat)
    requires ValidState(p, s)
    ensures var c := ClearedState(s, readPos);
      && ValidState(p, c)
      && (forall q: nat :: !Filled(c, q))
      && ReadNextBlock(p, c) == Zeros(p.blockSize)
      && ReadNextState(p, c).readPos == readPos
      && ReadNextState(p, c).nullReads == 1
  {
    var c := ClearedState(s, readPos);
    assert forall q: nat :: !Filled(c, q) by {
      forall q: nat ensures !Filled(c, q) {
        assert c.blockTime[Slot(q)] == 0;
      }
    }
  }

  // ----------------------------------------------------------------- read

  /** `x * bufferFade(k)` stored back into a sample: the product is exact
      and the float-to-int conversion truncates toward zero. */
  function FadeSample(x: int, k: nat, n: nat): int
    requires n > 0
  {
    TruncDiv(x * k, n)
  }

  /** The first `m` samples of the ramp over a block of `n`: sample `i`
      scaled by `(n - i - 1) / n` going down, by `i / n` going up. */
  function Ramp(d: seq<int>, n: nat, m: nat, down: bool): (r: seq<int>)
    requires n > 0 && |d| == n && m <= n
    ensures |r| == m
    ensures forall i :: 0 <= i < m ==> r[i] == FadeSample(d[i], if down then n - i - 1 else i, n)
  {
    if m == 0 then [] else Ramp(d, n, m - 1, down) + [FadeSample(d[m - 1], if down then n - m else m - 1, n)]
  }

  /** Both ramps end in silence on their quiet edge and never amplify. */
  lemma FadeRamps(d: seq<int>, n: nat, down: bool)
    requires n > 0 && |d| == n
    ensures down ==> Ramp(d, n, n, down)[n - 1] == 0
    ensures !down ==> Ramp(d, n, n, down)[0] == 0
    ensures forall i :: 0 <= i < n ==> -Abs(d[i]) <= Ramp(d, n, n, down)[i] <= Abs(d[i])
  {
    var o := Ramp(d, n, n, down);
    forall i | 0 <= i < n
      ensures -Abs(d[i]) <= o[i] <= Abs(d[i])
    {
      ScaleShrinks(d[i], if down then n - i - 1 else i, n);
    }
  }

  /** Whether `bufferRead` finds real data at `pos`. */
  predicate Available(s: BufState, pos: nat)
    requires |s.blockTime| == BufferBlocks
  {
    pos + BufferBlocks > s.writeLastPos && pos <= s.writeLastPos && Filled(s, pos)
  }

  /** `bufferRead(buf, pos, fadeIn, fadeOut)`. */
  function ReadBlock(p: Params, s: BufState, pos: nat, fadeIn: bool, fadeOut: bool): (r: seq<int>)
    requires ValidState(p, s)
    ensures |r| == p.blockSize
  {
    if (fadeIn && fadeOut) || !Available(s, pos) then
      Zeros(p.blockSize)
    else if fadeOut then
      Ramp(s.data[Slot(pos)], p.blockSize, p.blockSize, true)
    else if fadeIn then
      Ramp(s.data[Slot(pos)], p.blockSize, p.blockSize, false)
    else
      s.data[Slot(pos)]
  }

  /** What `bufferRead` hands out: silence when both fades are asked for or
      the index holds no valid block, the stored block unchanged without a
      fade, and otherwise the stored block scaled down towards a silent edge. */
  lemma ReadBlockShape(p: Params, s: BufState, pos: nat, fadeIn: bool, fadeOut: bool)
    requires ValidState(p, s)
    ensures var r := ReadBlock(p, s, pos, fadeIn, fadeOut);
      && ((fadeIn && fadeOut) || !Available(s, pos) ==> r == Zeros(p.blockSize))
      && (!fadeIn && !fadeOut && Available(s, pos) ==> r == s.data[Slot(pos)])
      && (forall i :: 0 <= i < p.blockSize ==> -Abs(s.data[Slot(pos)][i]) <= r[i] <= Abs(s.data[Slot(pos)][i]))
      && (fadeIn && !fadeOut ==> r[0] == 0)
      && (fadeOut && !fadeIn ==> r[p.blockSize - 1] == 0)
  {
    FadeRamps(s.data[Slot(pos)], p.blockSize, true);
    FadeRamps(s.data[Slot(pos)], p.blockSize, false);
  }

  /** `bufferRead` looks only at the written range, the markers and the data. */
  lemma ReadBlockFrame(p: Params, s: BufState, t: BufState, pos: nat, fadeIn: bool, fadeOut: bool)
    requires ValidState(p, s) && ValidState(p, t)
    requires s.writeLastPos == t.writeLastPos && s.blockTime == t.blockTime && s.data == t.data
    ensures ReadBlock(p, s, pos, fadeIn, fadeOut) == ReadBlock(p, t, pos, fadeIn, fadeOut)
  {
  }

  // ------------------------------------------------------- latency skip

  /** The skip-search loop (audioBuffer.h:118-127), one iteration per call:
      scanning down from slot `i`, every filled slot bounds the skip by the
      time its block waited in the buffer. */
  function SkipScan(p: Params, bt: seq<nat>, rp: nat, rt: nat, i: nat, skip: int, seen: nat): (r: int)
    requires |bt| == BufferBlocks
    ensures r <= skip
    decreases i
  {
    if skip <= 0 || i + p.desJumpPeriod <= rp || i == 0 then
      skip
    else
      var t := bt[Slot(i)];
      var allowed := i - rp + rt - t - 2;
      var skip' := if t != 0 && skip > allowed then allowed else skip;
      var seen' := if t != 0 then seen + 1 else seen;
      if i + p.desJumpPeriod <= rp + skip' && seen' >= p.desJumpPeriod then
        skip'
      else
        SkipScan(p, bt, rp, rt, i - 1, skip', seen')
  }

  /** The latency skip committed by one `bufferReadNext`
      (audioBuffer.h:113-129), for read position `rp`, last written index
      `wlp` and the already incremented read time `rt`. */
  function ChooseSkip(p: Params, bt: seq<nat>, rp: nat, wlp: nat, rt: nat, lastJumpTime: nat): (r: nat)
    requires |bt| == BufferBlocks
    ensures r > 0 ==> lastJumpTime + p.skipPeriod <= rt
    ensures r <= p.skipPeriod
    ensures r > 0 ==> rp + r + 1 <= wlp
    ensures r > 0 ==> bt[Slot(rp + r)] != 0 && bt[Slot(rp + r + 1)] != 0
  {
    if lastJumpTime + p.skipPeriod > rt then
      0
    else
      var s0: int := wlp - rp - 1;
      var s1 := if s0 > p.skipPeriod then p.skipPeriod else s0;
      var s2 := SkipScan(p, bt, rp, rt, wlp, s1, 0);
      if s2 <= 0 || bt[Slot(rp + s2)] == 0 || bt[Slot(rp + s2 + 1)] == 0 then 0 else s2
  }

  // ------------------------------------------------------------ loss jump

  /** Slot `rp + j` and the one after it are both filled and written:
      the stream resumed at `rp + j`. */
  predicate Resumes(bt: seq<nat>, rp: nat, wlp: nat, j: nat)
    requires |bt| == BufferBlocks
  {
    1 <= j && rp + j + 1 <= wlp && bt[Slot(rp + j)] != 0 && bt[Slot(rp + j + 1)] != 0
  }

  /** The loss-scan loop (audioBuffer.h:144-163) from iteration `i`, where
      `used` is the fill state of slot `rp + i`: the first `j <= nr` at which
      the stream resumes. */
  function LossScan(bt: seq<nat>, rp: nat, wlp: nat, nr: int, i: nat, used: bool): (r: Option<nat>)
    requires |bt| == BufferBlocks
    requires used == (i >= 1 && bt[Slot(rp + i)] != 0)
    ensures r.Some? ==> i <= r.value <= nr
    decreases nr - i
  {
    if i > nr then
      None
    else if rp + i + 1 > wlp then
      None
    else
      var nextUsed := bt[Slot(rp + i + 1)] != 0;
      if used && nextUsed then Some(i)
      else LossScan(bt, rp, wlp, nr, i + 1, nextUsed)
  }

  /** The loss scan finds exactly the first resumption point from `i` on,
      and finds none when there is none up to `nr`. */
  lemma {:induction false} LossScanFinds(bt: seq<nat>, rp: nat, wlp: nat, nr: int, i: nat, used: bool)
    requires |bt| == BufferBlocks
    requires used == (i >= 1 && bt[Slot(rp + i)] != 0)
    ensures var r := LossScan(bt, rp, wlp, nr, i, used);
      && (r.Some? ==> Resumes(bt, rp, wlp, r.value))
      && (r.Some? ==> forall j :: i <= j < r.value ==> !Resumes(bt, rp, wlp, j))
      && (r.None? ==> forall j :: i <= j && j <= nr ==> !Resumes(bt, rp, wlp, j))
    decreases nr - i
  {
    if i <= nr && rp + i + 1 <= wlp {
      var nextUsed := bt[Slot(rp + i + 1)] != 0;
      assert Resumes(bt, rp, wlp, i) == (used && nextUsed);
      if !(used && nextUsed) {
        LossScanFinds(bt, rp, wlp, nr, i + 1, nextUsed);
      }
    } else if i <= nr {
      assert forall j :: i <= j ==> !Resumes(bt, rp, wlp, j);
    }
  }

  // ------------------------------------------------------------ read next

  /** The read position after the long-jump check: when writing got a whole
      ring ahead, reading restarts half a ring behind the writer. */
  function StartPos(s: BufState): (r: nat)
    ensures s.readPos + BufferBlocks <= s.writeLastPos ==> r == s.writeLastPos - BufferBlocks / 2
    ensures s.readPos + BufferBlocks > s.writeLastPos ==> r == s.readPos
    ensures r + BufferBlocks > s.writeLastPos
  {
    if s.readPos + BufferBlocks <= s.writeLastPos then s.writeLastPos - BufferBlocks / 2 else s.readPos
  }

  /** Where reading resumes after the hold-back and loss-jump stage of
      `bufferReadNext` (audioBuffer.h:131-164): the position, the new
      `nullReads`, the number of lost blocks jumped and whether the block at
      the position is used. */
  datatype Resume = Resume(pos: nat, nullReads: int, jumped: nat, used: bool)

  function ResumeAt(bt: seq<nat>, wlp: nat, nullReads: int, rp: nat, skip: nat): (r: Resume)
    requires |bt| == BufferBlocks && nullReads >= -1
    ensures r.pos == rp + r.jumped
    ensures r.used ==> r.pos <= wlp && bt[Slot(r.pos)] != 0 && r.nullReads >= 0
    ensures r.nullReads >= -1
    ensures skip != 0 ==> r.jumped == 0 && r.nullReads >= 0
    ensures r.jumped > 0 ==>
      skip == 0 && r.used && r.jumped <= nullReads && Resumes(bt, rp, wlp, r.jumped)
    // blocks waited for are either still waited for or counted as lost
    ensures r.jumped + (if r.nullReads > 0 then r.nullReads else 0) == (if nullReads > 0 then nullReads else 0)
    // the hold-back: the block is present but not used this time
    ensures r.nullReads == -1 <==> (nullReads == -1 && skip == 0 && rp <= wlp && bt[Slot(rp)] != 0)
    ensures r.nullReads == -1 ==> !r.used && r.jumped == 0
    // a present block that is not held back is used right away
    ensures rp <= wlp && bt[Slot(rp)] != 0 && r.nullReads != -1 ==>
      r == Resume(rp, if nullReads == -1 then 0 else nullReads, 0, true)
  {
    var used0 := rp <= wlp && bt[Slot(rp)] != 0;
    var suppress := nullReads == -1 && used0 && skip == 0;
    var used1 := used0 && !suppress;
    var nr1 := if nullReads == -1 && !suppress then 0 else nullReads;
    var jump := if !used1 && skip == 0 then LossScan(bt, rp, wlp, nr1, 0, false) else None;
    LossScanFinds(bt, rp, wlp, nr1, 0, false);
    if jump.Some? then
      Resume(rp + jump.value, nr1 - jump.value, jump.value, true)
    else
      Resume(rp, nr1, 0, used1)
  }

  /** A jump goes to the first resumption point. */
  lemma ResumeAtFirst(bt: seq<nat>, wlp: nat, nullReads: int, rp: nat, skip: nat)
    requires |bt| == BufferBlocks && nullReads >= -1
    ensures var r := ResumeAt(bt, wlp, nullReads, rp, skip);
      r.jumped > 0 ==> forall j :: 0 <= j < r.jumped ==> !Resumes(bt, rp, wlp, j)
  {
    var nr1 := if nullReads == -1 then 0 else nullReads;
    LossScanFinds(bt, rp, wlp, nr1, 0, false);
  }

  /** The state after the clock advance, the long-jump check and the
      hold-back / loss-jump stage for the resumption `k`. */
  function ResumedState(p: Params, s: BufState, k: Resume): (t: BufState)
    requires ValidState(p, s) && k.nullReads >= -1
    ensures ValidState(p, t)
  {
    s.(readTime := s.readTime + 1, readPos := k.pos,
       fade := s.readPos + BufferBlocks <= s.writeLastPos || s.fade,
       nullReads := k.nullReads,
       lastJumpTime := if k.jumped > 0 && k.nullReads != 0 then s.readTime + 1 else s.lastJumpTime,
       srvLost := s.srvLost + k.jumped)
  }

  /** What the first stages of `bufferReadNext` (audioBuffer.h:103-164)
      leave for the delivery: the state `t` whose read position is the block
      to play, the resumption `k` that led there, and the latency skip chosen. */
  datatype Staged = Staged(t: BufState, k: Resume, skip: nat)

  function Stage(p: Params, s: BufState): (g: Staged)
    requires ValidState(p, s)
    ensures ValidState(p, g.t) && g.k.nullReads >= -1
  {
    var rp := StartPos(s);
    var skip := ChooseSkip(p, s.blockTime, rp, s.writeLastPos, s.readTime + 1, s.lastJumpTime);
    var k := ResumeAt(s.blockTime, s.writeLastPos, s.nullReads, rp, skip);
    Staged(ResumedState(p, s, k), k, skip)
  }

  /** Whether the delivered block is faded out: a latency skip follows it,
      or the block after it is missing. */
  predicate FadeOut(t: BufState, skip: nat)
    requires |t.blockTime| == BufferBlocks
  {
    skip != 0 || !Filled(t, t.readPos + 1)
  }

  /** Whether the delivery stage plays the block at the read position: it is
      used, and it would not be faded in and out at once. */
  predicate Plays(t: BufState, used: bool, skip: nat)
    requires |t.blockTime| == BufferBlocks
  {
    used && (!FadeOut(t, skip) || !t.fade)
  }

  /** The state the delivery stage of `bufferReadNext` (audioBuffer.h:166-209)
      leaves. */
  function DeliverState(t: BufState, used: bool, skip: nat): (r: BufState)
    requires |t.blockTime| == BufferBlocks && t.nullReads >= -1
    requires used ==> t.nullReads >= 0
    ensures r.nullReads >= -1
    ensures r == t.(readPos := r.readPos, fade := r.fade, srvPlay := r.srvPlay,
                    srvWait := r.srvWait, nullReads := r.nullReads)
  {
    if Plays(t, used, skip) then
      t.(readPos := t.readPos + 1, fade := FadeOut(t, skip), srvPlay := t.srvPlay + 1,
         srvWait := t.srvWait + t.nullReads, nullReads := if FadeOut(t, skip) && skip == 0 then -1 else 0)
    else
      t.(nullReads := t.nullReads + 1)
  }

  /** The block the delivery stage hands out. */
  function DeliverBlock(p: Params, t: BufState, used: bool, skip: nat): (r: seq<int>)
    requires ValidState(p, t)
    ensures |r| == p.blockSize
  {
    if Plays(t, used, skip) then ReadBlock(p, t, t.readPos, t.fade, FadeOut(t, skip)) else Zeros(p.blockSize)
  }

  /** The skip commit of `bufferReadNext` (audioBuffer.h:211-224). */
  function CommitSkip(t: BufState, skip: nat): (r: BufState)
    requires t.nullReads >= 0
  {
    t.(readPos := t.readPos + skip, lastJumpTime := t.readTime,
       srvWait := t.srvWait + t.nullReads, nullReads := 0, srvSkip := t.srvSkip + skip)
  }

  /** The state `bufferReadNext(buf)` leaves. */
  function ReadNextState(p: Params, s: BufState): (r: BufState)
    requires ValidState(p, s)
    ensures ValidState(p, r)
    ensures r.readTime == s.readTime + 1 && r.writeLastPos == s.writeLastPos
    ensures r.blockTime == s.blockTime && r.data == s.data
  {
    var g := Stage(p, s);
    var d := DeliverState(g.t, g.k.used, g.skip);
    if g.skip != 0 then CommitSkip(d, g.skip) else d
  }

  /** The block `bufferReadNext(buf)` hands to the mixer. */
  function ReadNextBlock(p: Params, s: BufState): (r: seq<int>)
    requires ValidState(p, s)
    ensures |r| == p.blockSize
  {
    var g := Stage(p, s);
    DeliverBlock(p, g.t, g.k.used, g.skip)
  }

  /** The first stages, each given as the state it leaves, compose to `Stage`. */
  lemma StageGlue(p: Params, s0: BufState, s1: BufState, skip: nat, k: Resume, s2: BufState)
    requires ValidState(p, s0)
    requires s1 == s0.(readTime := s0.readTime + 1, readPos := StartPos(s0),
                       fade := s0.readPos + BufferBlocks <= s0.writeLastPos || s0.fade)
    requires skip == ChooseSkip(p, s1.blockTime, s1.readPos, s1.writeLastPos, s1.readTime, s1.lastJumpTime)
    requires k == ResumeAt(s1.blockTime, s1.writeLastPos, s1.nullReads, s1.readPos, skip)
    requires s2 == s1.(readPos := k.pos, nullReads := k.nullReads, srvLost := s1.srvLost + k.jumped,
                       lastJumpTime := if k.jumped > 0 && k.nullReads != 0 then s1.readTime else s1.lastJumpTime)
    ensures Stage(p, s0) == Staged(s2, k, skip)
  {
    assert s2 == ResumedState(p, s0, k);
  }

  /** Reading only moves forward, every counter only grows, and each call
      plays at most one block. */
  lemma ReadNextMonotone(p: Params, s: BufState)
    requires ValidState(p, s)
    ensures var r := ReadNextState(p, s);
      && r.readPos >= StartPos(s) >= s.readPos
      && (r.srvPlay == s.srvPlay + 1 || r.srvPlay == s.srvPlay)
      && r.srvWait >= s.srvWait && r.srvLost >= s.srvLost && r.srvSkip >= s.srvSkip
  {
    var g := Stage(p, s);
    var d := DeliverState(g.t, g.k.used, g.skip);
    assert d.readPos >= g.t.readPos;
  }

  /** A played block is the stored block right behind the new read position
      (before any skip), faded in after a jump or a silence and faded out
      before one; otherwise the result is silence. */
  lemma ReadNextPlays(p: Params, s: BufState)
    requires ValidState(p, s)
    ensures var r := ReadNextState(p, s);
      var fadeIn := s.fade || s.readPos + BufferBlocks <= s.writeLastPos;
      r.srvPlay == s.srvPlay + 1 ==>
        var q := r.readPos - (r.srvSkip - s.srvSkip) - 1;
        && StartPos(s) <= q
        && Available(s, q)
        && ReadNextBlock(p, s) == ReadBlock(p, s, q, fadeIn, r.fade)
        && !(r.fade && fadeIn)
        && r.nullReads <= 0
  {
    var g := Stage(p, s);
    var r := ReadNextState(p, s);
    if Plays(g.t, g.k.used, g.skip) {
      var q := g.t.readPos;
      assert r.readPos - (r.srvSkip - s.srvSkip) - 1 == q;
      assert r.fade == FadeOut(g.t, g.skip);
      assert Available(s, q);
      ReadBlockFrame(p, s, g.t, q, g.t.fade, FadeOut(g.t, g.skip));
    } else {
      assert r.srvPlay == s.srvPlay;
    }
  }

  lemma ReadNextSilence(p: Params, s: BufState)
    requires ValidState(p, s)
    ensures ReadNextState(p, s).srvPlay == s.srvPlay ==> ReadNextBlock(p, s) == Zeros(p.blockSize)
  {
    var g := Stage(p, s);
  }

  /** A committed latency skip is bounded, respects the cool-down, restarts
      it, and lands on a filled slot inside the written range. */
  lemma ReadNextSkips(p: Params, s: BufState)
    requires ValidState(p, s)
    ensures var r := ReadNextState(p, s);
      r.srvSkip > s.srvSkip ==>
        var k := r.srvSkip - s.srvSkip;
        && k <= p.skipPeriod
        && s.lastJumpTime + p.skipPeriod <= s.readTime + 1
        && r.lastJumpTime == s.readTime + 1
        && r.readPos <= s.writeLastPos
        && Filled(s, r.readPos)
        && r.nullReads == 0
  {
    var g := Stage(p, s);
    if g.skip != 0 {
      SkipCommitted(p, s, g);
    } else {
      NoSkip(p, s, g);
    }
  }

  lemma NoSkip(p: Params, s: BufState, g: Staged)
    requires ValidState(p, s) && g == Stage(p, s) && g.skip == 0
    ensures ReadNextState(p, s).srvSkip == s.srvSkip
  {
    var d := DeliverState(g.t, g.k.used, g.skip);
    assert d.srvSkip == g.t.srvSkip;
  }

  lemma SkipCommitted(p: Params, s: BufState, g: Staged)
    requires ValidState(p, s) && g == Stage(p, s) && g.skip != 0
    ensures var r := ReadNextState(p, s);
      var k := r.srvSkip - s.srvSkip;
      && k == g.skip
      && k <= p.skipPeriod
      && s.lastJumpTime + p.skipPeriod <= s.readTime + 1
      && r.lastJumpTime == s.readTime + 1
      && r.readPos <= s.writeLastPos
      && Filled(s, r.readPos)
      && r.nullReads == 0
  {
    StagedSkip(p, s);
    CommitLands(p, g.t, g.k.used, g.skip);
  }

  /** What the first stages leave when they choose a latency skip. */
  lemma StagedSkip(p: Params, s: BufState)
    requires ValidState(p, s) && Stage(p, s).skip != 0
    ensures var g := Stage(p, s);
      && g.t.readTime == s.readTime + 1 && g.t.writeLastPos == s.writeLastPos && g.t.blockTime == s.blockTime
      && g.t.srvSkip == s.srvSkip && g.t.nullReads >= 0 && g.t.readPos == StartPos(s)
      && g.skip <= p.skipPeriod && s.lastJumpTime + p.skipPeriod <= s.readTime + 1
      && g.t.readPos + g.skip + 1 <= g.t.writeLastPos
      && Filled(g.t, g.t.readPos + g.skip) && Filled(g.t, g.t.readPos + g.skip + 1)
  {
  }

  /** A skip committed from `t`, where both of the slots it may land on are
      filled and written, lands on one of them. */
  lemma CommitLands(p: Params, t: BufState, used: bool, skip: nat)
    requires ValidState(p, t) && t.nullReads >= 0 && skip != 0
    requires t.readPos + skip + 1 <= t.writeLastPos
    requires Filled(t, t.readPos + skip) && Filled(t, t.readPos + skip + 1)
    ensures var r := CommitSkip(DeliverState(t, used, skip), skip);
      && r.readPos <= t.writeLastPos && Filled(t, r.readPos)
      && r.nullReads == 0 && r.lastJumpTime == t.readTime && r.srvSkip == t.srvSkip + skip
  {
    var d := DeliverState(t, used, skip);
    assert d.readPos == t.readPos || d.readPos == t.readPos + 1;
  }

  /** A jump over lost blocks goes to the first place where the stream
      resumed, never further than the reads already waited. */
  lemma ReadNextLoses(p: Params, s: BufState)
    requires ValidState(p, s)
    ensures var r := ReadNextState(p, s);
      r.srvLost > s.srvLost ==>
        var j := r.srvLost - s.srvLost;
        && r.srvSkip == s.srvSkip
        && j <= s.nullReads
        && Resumes(s.blockTime, StartPos(s), s.writeLastPos, j)
        && (forall j' :: 0 <= j' < j ==> !Resumes(s.blockTime, StartPos(s), s.writeLastPos, j'))
  {
    var g := Stage(p, s);
    ResumeAtFirst(s.blockTime, s.writeLastPos, s.nullReads, StartPos(s), g.skip);
  }

  /** Ticks accounted for by the counters: every call is played, waited or
      lost, except the one deliberately inserted silence after a fade-out. */
  function Accounted(s: BufState): int
  {
    s.srvPlay + s.srvWait + s.srvLost + (if s.nullReads > 0 then s.nullReads else 0)
  }

  lemma TickAccounting(p: Params, s: BufState)
    requires ValidState(p, s)
    ensures var r := ReadNextState(p, s);
      || Accounted(r) == Accounted(s) + 1
      || (s.nullReads == -1 && Accounted(r) == Accounted(s) && ReadNextBlock(p, s) == Zeros(p.blockSize))
  {
    var g := Stage(p, s);
    var d := DeliverState(g.t, g.k.used, g.skip);
    assert Accounted(d) == Accounted(g.t) + 1 || (g.t.nullReads == -1 && Accounted(d) == Accounted(g.t));
  }

  /** After an on-schedule fade-out the next block, though present, is held
      back exactly once. */
  lemma SuppressOnce(p: Params, s: BufState)
    requires ValidState(p, s) && s.nullReads == -1
    requires s.readPos <= s.writeLastPos < s.readPos + BufferBlocks && Filled(s, s.readPos)
    requires s.lastJumpTime + p.skipPeriod > s.readTime + 1
    ensures ReadNextBlock(p, s) == Zeros(p.blockSize)
    ensures var r := ReadNextState(p, s);
      && r.readPos == s.readPos
      && r.nullReads == 0
      && r.srvPlay == s.srvPlay
  {
    var g := Stage(p, s);
    assert g.skip == 0;
  }

  // ---------------------------------------------------------------- write

  /** The do-while gap fill of `bufferWrite` (audioBuffer.h:250-255):
      markers of indices `wlp+1 .. pos` are cleared, in that order. */
  function ClearGap(bt: seq<nat>, wlp: nat, pos: nat): (r: seq<nat>)
    requires |bt| == BufferBlocks
    ensures |r| == BufferBlocks
    decreases pos
  {
    if pos <= wlp then bt else ClearGap(bt, wlp, pos - 1)[Slot(pos) := 0]
  }

  lemma {:induction false} ClearGapAt(bt: seq<nat>, wlp: nat, pos: nat)
    requires |bt| == BufferBlocks
    ensures forall q: nat :: wlp < q <= pos ==> ClearGap(bt, wlp, pos)[Slot(q)] == 0
    ensures forall k :: 0 <= k < BufferBlocks && (forall q: nat :: wlp < q <= pos ==> Slot(q) != k) ==>
      ClearGap(bt, wlp, pos)[k] == bt[k]
    decreases pos
  {
    if pos > wlp {
      ClearGapAt(bt, wlp, pos - 1);
    }
  }

  datatype WriteOutcome = WriteOutcome(state: BufState, ok: bool)

  /** What an accepted write leaves in the slot: the block itself, or its
      sum with the block already stored for the same index when `add` is set. */
  function StoredBlock(p: Params, s: BufState, pos: nat, block: seq<int>, add: bool): seq<int>
    requires ValidState(p, s) && |block| == p.blockSize
  {
    if add && pos <= s.writeLastPos && Filled(s, pos) then AddBlocks(s.data[Slot(pos)], block) else block
  }

  /** `bufferWrite(buf, pos, data, add)`. */
  function WriteStep(p: Params, s: BufState, pos: nat, block: seq<int>, add: bool): (r: WriteOutcome)
    requires ValidState(p, s) && |block| == p.blockSize
    ensures ValidState(p, r.state)
    ensures r.state.writeLastPos == if pos > s.writeLastPos then pos else s.writeLastPos
    ensures r.ok <==> s.readPos <= pos
    ensures r.state == s.(writeLastPos := r.state.writeLastPos, blockTime := r.state.blockTime, data := r.state.data)
  {
    ClearGapAt(s.blockTime, s.writeLastPos, pos);
    var bt := ClearGap(s.blockTime, s.writeLastPos, pos);
    var wlp := if s.writeLastPos < pos then pos else s.writeLastPos;
    if pos < s.readPos then
      WriteOutcome(s.(writeLastPos := wlp, blockTime := bt), false)
    else
      var k := Slot(pos);
      var stored := if !add || bt[k] == 0 then block else AddBlocks(s.data[k], block);
      WriteOutcome(s.(writeLastPos := wlp, blockTime := bt[k := s.readTime], data := s.data[k := stored]), true)
  }

  /** What `bufferWrite` does to the slots: the gap it opens is marked
      empty, an accepted block is stored (or added) and marked with the read
      clock, and nothing else changes. */
  lemma WriteStepEffects(p: Params, s: BufState, pos: nat, block: seq<int>, add: bool)
    requires ValidState(p, s) && |block| == p.blockSize
    ensures var r := WriteStep(p, s, pos, block, add);
      // the newly covered indices are marked empty, even when the write is rejected
      && (forall q: nat :: s.writeLastPos < q <= pos && (!r.ok || Slot(q) != Slot(pos)) ==> !Filled(r.state, q))
      // no other marker and no other slot's data changes
      && (forall k :: 0 <= k < BufferBlocks && (!r.ok || k != Slot(pos))
                      && (forall q: nat :: s.writeLastPos < q <= pos ==> Slot(q) != k) ==>
            r.state.blockTime[k] == s.blockTime[k])
      && (forall k :: 0 <= k < BufferBlocks && (!r.ok || k != Slot(pos)) ==> r.state.data[k] == s.data[k])
      // an accepted block is stored (or added to the block already there) and marked
      && (r.ok ==> r.state.blockTime[Slot(pos)] == s.readTime && Filled(r.state, pos))
      && (r.ok ==> r.state.data[Slot(pos)] == StoredBlock(p, s, pos, block, add))
  {
    ClearGapAt(s.blockTime, s.writeLastPos, pos);
  }

  /** A write below the read position changes no stored block, and when it
      lies inside the written range it changes no marker either. */
  lemma RejectedWriteKeepsSlot(p: Params, s: BufState, pos: nat, block: seq<int>, add: bool)
    requires ValidState(p, s) && |block| == p.blockSize
    requires pos < s.readPos
    ensures var r := WriteStep(p, s, pos, block, add);
      && !r.ok
      && r.state.data == s.data
      && (pos <= s.writeLastPos ==> r.state.blockTime == s.blockTime)
  {
    var r := WriteStep(p, s, pos, block, add);
    assert r.state.data == s.data;
    if pos <= s.writeLastPos {
      assert r.state.blockTime == s.blockTime;
    }
  }

  // ------------------------------------------------------ lockstep stream

  /** Steady streaming: everything written up to the read position, that
      slot filled, no pending fade and no waiting. */
  predicate Steady(p: Params, s: BufState)
  {
    && ValidState(p, s)
    && s.writeLastPos == s.readPos
    && Filled(s, s.readPos)
    && !s.fade
    && s.nullReads == 0
  }

  /** The state `bufferWriteNext(buf, block, false)` leaves. */
  function Written(p: Params, s: BufState, block: seq<int>): (w: BufState)
    requires ValidState(p, s) && |block| == p.blockSize
    ensures ValidState(p, w)
  {
    WriteStep(p, s, s.writeLastPos + 1, block, false).state
  }

  /** One tick of a writer that keeps exactly one block ahead: `bufferWriteNext`
      then `bufferReadNext` play the oldest block and stay steady. */
  lemma SteadyTick(p: Params, s: BufState, block: seq<int>)
    requires Steady(p, s) && |block| == p.blockSize
    ensures var w := Written(p, s, block);
      && ReadNextBlock(p, w) == s.data[Slot(s.readPos)]
      && ReadNextState(p, w).readPos == s.readPos + 1
      && Steady(p, ReadNextState(p, w))
      && ReadNextState(p, w).data[Slot(s.readPos + 1)] == block
  {
    var w := Written(p, s, block);
    var rp := s.readPos;
    WriteStepEffects(p, s, rp + 1, block, false);
    assert Slot(rp + 1) != Slot(rp);
    assert w.blockTime[Slot(rp)] == s.blockTime[Slot(rp)];
    assert w.data[Slot(rp)] == s.data[Slot(rp)];
    assert Filled(w, rp + 1);
    var g := Stage(p, w);
    assert g.skip == 0;
    assert g.k.used && g.t.readPos == rp;
    assert Plays(g.t, g.k.used, g.skip) && !FadeOut(g.t, g.skip);
  }

  /** The outputs of lockstep ticks, one per written block. */
  function Lockstep(p: Params, s: BufState, blocks: seq<seq<int>>): (outs: seq<seq<int>>)
    requires ValidState(p, s)
    requires forall b <- blocks :: |b| == p.blockSize
    ensures |outs| == |blocks|
    decreases |blocks|
  {
    if blocks == [] then []
    else
      var w := Written(p, s, blocks[0]);
      [ReadNextBlock(p, w)] + Lockstep(p, ReadNextState(p, w), blocks[1..])
  }

  /** Contiguous in-order writes played in lockstep come out in order, one
      block later, with no inserted silence and no fade. */
  lemma {:induction false} LockstepInOrder(p: Params, s: BufState, blocks: seq<seq<int>>)
    requires Steady(p, s)
    requires forall b <- blocks :: |b| == p.blockSize
    requires |blocks| > 0
    ensures Lockstep(p, s, blocks) == [s.data[Slot(s.readPos)]] + blocks[..|blocks| - 1]
    decreases |blocks|
  {
    SteadyTick(p, s, blocks[0]);
    var r := ReadNextState(p, Written(p, s, blocks[0]));
    var rest := blocks[1..];
    if rest != [] {
      LockstepInOrder(p, r, rest);
      ShiftByOne(blocks);
    }
  }

  lemma ShiftByOne<T>(xs: seq<T>)
    requires |xs| > 1
    ensures [xs[0]] + xs[1..][..|xs| - 2] == xs[..|xs| - 1]
  {
    assert xs[1..][..|xs| - 2] == xs[1..|xs| - 1];
  }

  // ------------------------------------------------------------ the class

  /** `struct audioBuffer` with its arrays, updated in place. */
  class Buffer {
    const p: Params
    var readPos: nat
    var writeLastPos: nat
    var readTime: nat
    var lastJumpTime: nat
    var fade: bool
    var nullReads: int
    var srvWait: nat
    var srvSkip: nat
    var srvLost: nat
    var srvPlay: nat
    const tmpBlock: array<int>
    const blockTime: array<nat>
    const data: array<seq<int>>

    function State(): BufState
      reads this, blockTime, data
    {
      BufState(readPos, writeLastPos, readTime, lastJumpTime, fade, nullReads,
               srvWait, srvSkip, srvLost, srvPlay, blockTime[..], data[..])
    }

    ghost predicate Valid()
      reads this, blockTime, data
      ensures Valid() ==> ValidState(p, State())
    {
      && blockTime.Length == BufferBlocks
      && data.Length == BufferBlocks
      && tmpBlock.Length == p.blockSize
      && (tmpBlock as object) != (blockTime as object)
      && ValidParams(p)
      && (forall k :: 0 <= k < BufferBlocks ==> |data[k]| == p.blockSize)
      && readTime >= 1
      && nullReads >= -1
    }

    /** A zero-initialised buffer followed by `bufferClear(buf, readPos)`. */
    constructor (params: Params, readPos0: nat)
      requires ValidParams(params)
      ensures Valid() && fresh(tmpBlock) && fresh(blockTime) && fresh(data)
      ensures p == params
      ensures State() == ClearedState(State(), readPos0)
    {
      p := params;
      readPos, writeLastPos, readTime, lastJumpTime := readPos0, 0, 1, 0;
      fade, nullReads := true, 0;
      srvWait, srvSkip, srvLost, srvPlay := 0, 0, 0, 0;
      tmpBlock := new int[params.blockSize](_ => 0);
      blockTime := new nat[BufferBlocks](_ => 0);
      data := new seq<int>[BufferBlocks](_ => Zeros(params.blockSize));
    }

    /** `bufferClear(buf, readPos)`. */
    method Clear(readPos0: nat)
      requires Valid()
      modifies this, blockTime
      ensures Valid()
      ensures State() == ClearedState(old(State()), readPos0)
    {
      ClearCursor(readPos0);
      ClearMarkers();
      ClearCounters();
    }

    /** The position, clock and fade fields of `bufferClear`. */
    method ClearCursor(readPos0: nat)
      requires Valid()
      modifies this
      ensures Valid()
      ensures State() == old(State()).(readPos := readPos0, readTime := 1, lastJumpTime := 0,
        writeLastPos := 0, fade := true, nullReads := 0)
    {
      readPos, readTime, lastJumpTime, writeLastPos := readPos0, 1, 0, 0;
      fade, nullReads := true, 0;
    }

    /** The server-statistics fields of `bufferClear`. */
    method ClearCounters()
      requires Valid()
      modifies this
      ensures Valid()
      ensures State() == old(State()).(srvWait := 0, srvSkip := 0, srvLost := 0, srvPlay := 0)
    {
      srvWait, srvSkip, srvLost, srvPlay := 0, 0, 0, 0;
    }

    /** The memset of the slot markers. */
    method ClearMarkers()
      requires blockTime.Length == BufferBlocks
      modifies blockTime
      ensures blockTime[..] == NoMarkers(BufferBlocks)
    {
      for i := 0 to BufferBlocks
        invariant forall k :: 0 <= k < i ==> blockTime[k] == 0
      {
        blockTime[i] := 0;
      }
    }

    /** memset of `tmpBlock`, returned as the silent block. */
    method Silence() returns (blk: seq<int>)
      requires Valid()
      modifies tmpBlock
      ensures Valid() && blk == Zeros(p.blockSize)
    {
      for i := 0 to tmpBlock.Length
        invariant forall k :: 0 <= k < i ==> tmpBlock[k] == 0
      {
        tmpBlock[i] := 0;
      }
      blk := tmpBlock[..];
    }

    /** `bufferRead(buf, pos, fadeIn, fadeOut)`. */
    method Read(pos: nat, fadeIn: bool, fadeOut: bool) returns (blk: seq<int>)
      requires Valid()
      modifies tmpBlock
      ensures Valid()
      ensures blk == ReadBlock(p, State(), pos, fadeIn, fadeOut)
    {
      if (fadeIn && fadeOut) || pos + BufferBlocks <= writeLastPos || pos > writeLastPos
         || blockTime[pos % BufferBlocks] == 0 {
        blk := Silence();
        return;
      }
      var retData := data[pos % BufferBlocks];
      if fadeIn || fadeOut {
        var n := p.blockSize;
        for i := 0 to n
          invariant tmpBlock[..i] == Ramp(retData, n, i, fadeOut)
        {
          if fadeOut {
            tmpBlock[i] := FadeSample(retData[i], n - i - 1, n);
          } else {
            tmpBlock[i] := FadeSample(retData[i], i, n);
          }
          assert tmpBlock[..i + 1] == tmpBlock[..i] + [tmpBlock[i]];
        }
        assert tmpBlock[..] == tmpBlock[..n];
        blk := tmpBlock[..];
      } else {
        blk := retData;
      }
    }

    /** The skip search: reads the buffer, changes nothing. */
    method ComputeSkip(rp: nat, rt: nat) returns (skip: nat)
      requires blockTime.Length == BufferBlocks
      ensures skip == ChooseSkip(p, blockTime[..], rp, writeLastPos, rt, lastJumpTime)
    {
      skip := 0;
      if lastJumpTime + p.skipPeriod <= rt {
        var s: int := writeLastPos - rp - 1;
        if s > p.skipPeriod {
          s := p.skipPeriod;
        }
        s := ScanSkip(rp, rt, s);
        if s > 0 && blockTime[(rp + s) % BufferBlocks] != 0 && blockTime[(rp + s + 1) % BufferBlocks] != 0 {
          skip := s;
        }
      }
    }

    /** The search loop of the skip: from the last written index down,
      bound the skip `s0` by the time each filled slot waited. */
    method ScanSkip(rp: nat, rt: nat, s0: int) returns (s: int)
      requires blockTime.Length == BufferBlocks
      ensures s == SkipScan(p, blockTime[..], rp, rt, writeLastPos, s0, 0)
    {
      ghost var bt := blockTime[..];
      s := s0;
      var seenBlocks: nat := 0;
      var i: nat := writeLastPos;
      while s > 0 && i + p.desJumpPeriod > rp && i > 0
        invariant SkipScan(p, bt, rp, rt, i, s, seenBlocks) == SkipScan(p, bt, rp, rt, writeLastPos, s0, 0)
        decreases i
      {
        var t := blockTime[i % BufferBlocks];
        if t != 0 {
          var val := i - rp + rt - t - 2;
          if s > val {
            s := val;
          }
          seenBlocks := seenBlocks + 1;
        }
        if i + p.desJumpPeriod <= rp + s && seenBlocks >= p.desJumpPeriod {
          break;
        }
        i := i - 1;
      }
    }

    /** The loss scan: reads the buffer, changes nothing; the caller applies
      the jump. */
    method FindResume(rp: nat, nr: int) returns (jump: Option<nat>)
      requires blockTime.Length == BufferBlocks
      ensures jump == LossScan(blockTime[..], rp, writeLastPos, nr, 0, false)
    {
      ghost var bt := blockTime[..];
      ghost var goal := LossScan(bt, rp, writeLastPos, nr, 0, false);
      var used := false;
      var i: nat := 0;
      jump := None;
      while i <= nr
        invariant used == (i >= 1 && bt[Slot(rp + i)] != 0)
        invariant LossScan(bt, rp, writeLastPos, nr, i, used) == goal
        invariant jump == None
        decreases nr - i
      {
        if rp + i + 1 > writeLastPos {
          break;
        }
        var nextUsed := blockTime[(rp + i + 1) % BufferBlocks] != 0;
        if used && nextUsed {
          jump := Some(i);
          break;
        }
        used := nextUsed;
        i := i + 1;
      }
    }

    /** The hold-back and loss-jump stage of `bufferReadNext`; `rp` is the
      read position after the long-jump check and `readTime` is already
      advanced.  Returns the position to play and whether it is used. */
    method HoldBackOrJump(rp: nat, skip: nat) returns (pos: nat, curUsed: bool)
      requires Valid() && readPos == rp
      modifies this
      ensures Valid()
      ensures var s := old(State());
        var k := ResumeAt(s.blockTime, s.writeLastPos, s.nullReads, rp, skip);
        && pos == k.pos && curUsed == k.used
        && State() == s.(readPos := k.pos, nullReads := k.nullReads, srvLost := s.srvLost + k.jumped,
             lastJumpTime := if k.jumped > 0 && k.nullReads != 0 then s.readTime else s.lastJumpTime)
    {
      pos := rp;
      curUsed := HoldBack(skip);
      if !curUsed && skip == 0 {
        var jumped := JumpLost(rp);
        if jumped {
          pos := readPos;
          curUsed := true;
        }
      }
    }

    /** A block that arrives just in time after a fade-out is held back
      once (when no skip is pending); otherwise a pending hold-back is
      dropped.  Returns whether the block at `readPos` is used. */
    method HoldBack(skip: nat) returns (curUsed: bool)
      requires Valid()
      modifies this
      ensures Valid()
      ensures var s := old(State());
        var present := s.readPos <= s.writeLastPos && Filled(s, s.readPos);
        var suppress := s.nullReads == -1 && present && skip == 0;
        && curUsed == (present && !suppress)
        && State() == s.(nullReads := if s.nullReads == -1 && !suppress then 0 else s.nullReads)
    {
      curUsed := readPos <= writeLastPos && blockTime[readPos % BufferBlocks] != 0;
      if nullReads == -1 {
        if curUsed && skip == 0 {
          curUsed := false;
        } else {
          nullReads := 0;
        }
      }
    }

    /** The loss jump: when the stream resumed within the reads waited,
      move there, count the skipped blocks as lost and restart the
      cool-down unless the wait is used up. */
    method JumpLost(rp: nat) returns (jumped: bool)
      requires Valid() && readPos == rp
      modifies this
      ensures Valid()
      ensures var s := old(State());
        var jump := LossScan(s.blockTime, rp, s.writeLastPos, s.nullReads, 0, false);
        && jumped == jump.Some?
        && State() == if jump.None? then s else
             s.(readPos := rp + jump.value, srvLost := s.srvLost + jump.value, nullReads := s.nullReads - jump.value,
                lastJumpTime := if s.nullReads - jump.value != 0 then s.readTime else s.lastJumpTime)
    {
      var jump := FindResume(rp, nullReads);
      jumped := jump.Some?;
      if jump.Some? {
        var i := jump.value;
        readPos := rp + i;
        srvLost := srvLost + i;
        nullReads := nullReads - i;
        if nullReads != 0 {
          lastJumpTime := readTime;
        }
      }
    }

    /** The delivery stage of `bufferReadNext`: play the block at `readPos`
      (with fades) or hand out silence. */
    method Deliver(curUsed: bool, skip: nat) returns (blk: seq<int>)
      requires Valid() && (curUsed ==> nullReads >= 0)
      modifies this, tmpBlock
      ensures Valid()
      ensures State() == DeliverState(old(State()), curUsed, skip)
      ensures blk == DeliverBlock(p, old(State()), curUsed, skip)
    {
      var fadeOut := skip != 0 || blockTime[(readPos + 1) % BufferBlocks] == 0;
      if curUsed && (!fadeOut || !fade) {
        blk := Play(fadeOut, fadeOut && skip == 0);
      } else {
        blk := Silence();
        nullReads := nullReads + 1;
      }
    }

    /** Play the block at `readPos`: hand it out with the pending fade-in
      and the given fade-out, step past it, count it and the reads waited
      for it, and arm the hold-back when `holdBack` is set. */
    method Play(fadeOut: bool, holdBack: bool) returns (blk: seq<int>)
      requires Valid() && nullReads >= 0
      modifies this, tmpBlock
      ensures Valid()
      ensures blk == ReadBlock(p, old(State()), old(readPos), old(fade), fadeOut)
      ensures State() == old(State()).(readPos := old(readPos) + 1, fade := fadeOut, srvPlay := old(srvPlay) + 1,
        srvWait := old(srvWait) + old(nullReads), nullReads := if holdBack then -1 else 0)
    {
      var rp := readPos;
      blk := Read(rp, fade, fadeOut);
      readPos := rp + 1;
      fade := fadeOut;
      srvPlay := srvPlay + 1;
      srvWait := srvWait + nullReads;
      nullReads := 0;
      if holdBack {
        nullReads := -1;
      }
    }

    /** The skip commit of `bufferReadNext`: jump ahead and restart the
      cool-down. */
    method CommitSkipIn(skip: nat)
      requires Valid() && nullReads >= 0
      modifies this
      ensures Valid()
      ensures State() == CommitSkip(old(State()), skip)
    {
      var rp := readPos;
      readPos := rp + skip;
      lastJumpTime := readTime;
      srvWait := srvWait + nullReads;
      nullReads := 0;
      srvSkip := srvSkip + skip;
    }

    /** The first stage of `bufferReadNext`: advance the read clock and, when
      writing got a whole ring ahead of reading, restart half a ring behind
      the writer with a fade-in. */
    method Advance() returns (rp: nat)
      requires Valid()
      modifies this
      ensures Valid()
      ensures rp == StartPos(old(State()))
      ensures State() == old(State()).(readTime := old(readTime) + 1, readPos := rp,
        fade := old(readPos) + BufferBlocks <= old(writeLastPos) || old(fade))
    {
      readTime := readTime + 1;
      rp := readPos;
      if rp + BufferBlocks <= writeLastPos {
        rp := writeLastPos - BufferBlocks / 2;
        readPos := rp;
        fade := true;
      }
    }

    /** `bufferReadNext(buf)`, without the level statistics. */
    method ReadNext() returns (blk: seq<int>)
      requires Valid()
      modifies this, tmpBlock
      ensures Valid()
      ensures State() == ReadNextState(p, old(State()))
      ensures blk == ReadNextBlock(p, old(State()))
    {
      ghost var s0 := State();
      var rp := Advance();
      ghost var s1 := State();
      var skip := ComputeSkip(rp, readTime);
      var curUsed;
      rp, curUsed := HoldBackOrJump(rp, skip);
      StageGlue(p, s0, s1, skip, ResumeAt(s1.blockTime, s1.writeLastPos, s1.nullReads, s1.readPos, skip), State());
      blk := Deliver(curUsed, skip);
      if skip != 0 {
        CommitSkipIn(skip);
      }
    }

    /** `bufferWrite(buf, pos, data, add)`. */
    method Write(pos: nat, block: seq<int>, add: bool) returns (ok: bool)
      requires Valid() && |block| == p.blockSize
      modifies this, blockTime, data
      ensures Valid()
      ensures State() == WriteStep(p, old(State()), pos, block, add).state
      ensures ok == WriteStep(p, old(State()), pos, block, add).ok
    {
      ghost var s0 := State();
      if writeLastPos < pos {
        while writeLastPos < pos
          invariant s0.writeLastPos <= writeLastPos <= pos
          invariant blockTime[..] == ClearGap(s0.blockTime, s0.writeLastPos, writeLastPos)
          invariant data[..] == s0.data
          invariant State() == s0.(writeLastPos := writeLastPos, blockTime := blockTime[..])
        {
          writeLastPos := writeLastPos + 1;
          blockTime[writeLastPos % BufferBlocks] := 0;
        }
      }
      assert blockTime[..] == ClearGap(s0.blockTime, s0.writeLastPos, pos);

      if pos < readPos {
        return false;
      }

      var k := pos % BufferBlocks;
      if !add || blockTime[k] == 0 {
        data[k] := block;
      } else {
        data[k] := AddBlocks(data[k], block);
      }
      blockTime[k] := readTime;
      ok := true;
    }

    /** `bufferWriteNext(buf, data, add)`: append right after the last written index. */
    method WriteNext(block: seq<int>, add: bool) returns (ok: bool)
      requires Valid() && |block| == p.blockSize
      modifies this, blockTime, data
      ensures Valid()
      ensures State() == WriteStep(p, old(State()), old(writeLastPos) + 1, block, add).state
      ensures ok <==> old(readPos) <= old(writeLastPos) + 1
    {
      ok := Write(writeLastPos + 1, block, add);
    }

    /** `bufferSrvStatsReset`: read and zero the four counters, report the
      buffered delay as the unsigned 32-bit difference `writeLastPos - readPos + 1`. */
    method SrvStatsReset() returns (play: nat, lost: nat, wait: nat, skip: nat, delay: nat)
      requires Valid()
      modifies this
      ensures Valid()
      ensures play == old(srvPlay) && lost == old(srvLost) && wait == old(srvWait) && skip == old(srvSkip)
      ensures delay == (old(writeLastPos) - old(readPos) + 1) % 0x1_0000_0000
      ensures old(readPos) <= old(writeLastPos) + 1 < old(readPos) + 0x1_0000_0000 ==>
        delay == old(writeLastPos) - old(readPos) + 1
      ensures State() == old(State()).(srvPlay := 0, srvLost := 0, srvWait := 0, srvSkip := 0)
    {
      play := srvPlay; srvPlay := 0;
      lost := srvLost; srvLost := 0;
      wait := srvWait; srvWait := 0;
      skip := srvSkip; srvSkip := 0;
      delay := (writeLastPos - readPos + 1) % 0x1_0000_0000;
    }
  }
}
