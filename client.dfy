// The client of client.c: reassembly of the status pages sent by the
// server, the split of the server's helo string into keys and their
// description, the numbering and channel conversion of captured blocks in
// the input callback, and the rule that decides which key presses are
// forwarded to the server.

module Client {
  import opened Wrappers
  import opened Samples
  import AudioIO

  /** Values of a `bindex_t` (uint32_t). */
  const Uint32Mod: nat := 0x1_0000_0000

  function Min(a: int, b: int): int { if a < b then a else b }

  // ---------------------------------------------------------------------
  // Status pages (the PACKET_STATUS case of udpReceiver)

  /** Size of `packetsReceived`: one flag per value of a uint8 page index. */
  const PageSlots: nat := 256

  /** A status page: its `packetIndex` and `packetsCnt` (uint8) and the
      `statusIndex` (bindex_t) of the status it belongs to. */
  datatype StatusPage = StatusPage(page: nat, count: nat, index: nat)

  predicate WellFormed(p: StatusPage)
  {
    p.page < PageSlots && p.count < PageSlots && p.index < Uint32Mod
  }

  /** The receiver's state: `statusIndex` (an int, -1 before the first
      page), `packetsCnt` and the flags of `packetsReceived`. */
  datatype Reassembly = Reassembly(index: int, count: nat, got: seq<bool>)

  predicate ValidReassembly(r: Reassembly)
  {
    -0x8000_0000 <= r.index < 0x8000_0000 && r.count < PageSlots && |r.got| == PageSlots
  }

  /** How a page is treated: it opens a newer status, it is an older one,
      or it belongs to the status being collected. */
  datatype Verdict = Newer | Older | Current

  /** The two comparisons of udpReceiver: first the page index cast to
      `int` against `statusIndex`, then the page index against
      `statusIndex` converted to unsigned (the usual arithmetic conversions
      of C for a uint32_t and an int). */
  function Classify(r: Reassembly, p: StatusPage): Verdict
  {
    if Wrap32(p.index) > r.index then Newer
    else if p.index < r.index % Uint32Mod then Older
    else Current
  }

  /** The receiver's state after one status page. */
  function Receive(r: Reassembly, p: StatusPage): (r': Reassembly)
    requires ValidReassembly(r) && WellFormed(p)
    ensures ValidReassembly(r')
  {
    match Classify(r, p)
    case Newer => Reassembly(Wrap32(p.index), p.count, seq(PageSlots, i => i == p.page))
    case Older => r
    case Current => Reassembly(r.index, Min(r.count, p.count), r.got[p.page := true])
  }

  /** All pages below `packetsCnt` have arrived. */
  predicate Complete(r: Reassembly)
    requires ValidReassembly(r)
  {
    forall i :: 0 <= i < r.count ==> r.got[i]
  }

  /** With status indices below 2^31 (the server counts them up from 0), the
      mixed signed and unsigned comparisons agree with plain comparison of
      the indices: a page is newer, older or current exactly when its index
      is greater than, less than or equal to `statusIndex`. */
  lemma ClassifyAgrees(r: Reassembly, p: StatusPage)
    requires ValidReassembly(r) && WellFormed(p)
    requires -1 <= r.index && p.index < 0x8000_0000
    ensures Classify(r, p) == Newer <==> p.index > r.index
    ensures Classify(r, p) == Older <==> p.index < r.index
    ensures Classify(r, p) == Current <==> p.index == r.index
  {
  }

  /** A page never moves the receiver back to an older status. */
  lemma IndexNeverDecreases(r: Reassembly, p: StatusPage)
    requires ValidReassembly(r) && WellFormed(p)
    ensures Receive(r, p).index >= r.index
    ensures Classify(r, p) != Newer ==> Receive(r, p).count <= r.count
  {
  }

  /** The receiver's state after a run of pages. */
  function Deliver(r: Reassembly, ps: seq<StatusPage>): (r': Reassembly)
    requires ValidReassembly(r) && forall p <- ps :: WellFormed(p)
    ensures ValidReassembly(r')
    decreases |ps|
  {
    if ps == [] then r else Deliver(Receive(r, ps[0]), ps[1..])
  }

  /** The smallest page count among `c` and those of `ps`. */
  function MinCount(c: nat, ps: seq<StatusPage>): nat
    decreases |ps|
  {
    if ps == [] then c else MinCount(Min(c, ps[0].count), ps[1..])
  }

  /** Some page of `ps` has index `i`. */
  predicate Arrived(ps: seq<StatusPage>, i: nat)
  {
    exists k :: 0 <= k < |ps| && ps[k].page == i
  }

  /** Pages of the status being collected add their flags and lower the
      page count to the smallest count seen; nothing else changes. */
  lemma {:induction false} CollectPages(r: Reassembly, ps: seq<StatusPage>)
    requires ValidReassembly(r) && 0 <= r.index
    requires forall p <- ps :: WellFormed(p) && p.index == r.index
    ensures Deliver(r, ps).index == r.index
    ensures Deliver(r, ps).count == MinCount(r.count, ps)
    ensures forall i :: 0 <= i < PageSlots ==> (Deliver(r, ps).got[i] <==> r.got[i] || Arrived(ps, i))
    decreases |ps|
  {
    if ps != [] {
      var p := ps[0];
      ClassifyAgrees(r, p);
      var r1 := Receive(r, p);
      CollectPages(r1, ps[1..]);
      forall i | 0 <= i < PageSlots
        ensures Deliver(r, ps).got[i] <==> r.got[i] || Arrived(ps, i)
      {
        if Arrived(ps[1..], i) {
          var k :| 0 <= k < |ps[1..]| && ps[1..][k].page == i;
          assert ps[k + 1].page == i;
        }
        if Arrived(ps, i) && i != p.page {
          var k :| 0 <= k < |ps| && ps[k].page == i;
          assert ps[1..][k - 1].page == i;
        }
      }
    }
  }

  /** The status shows once complete: after the first page of a newer status
      and further pages of that status, the receiver reports it complete
      exactly when every page below the smallest page count seen has
      arrived. */
  lemma StatusCompletes(r: Reassembly, first: StatusPage, ps: seq<StatusPage>)
    requires ValidReassembly(r) && -1 <= r.index
    requires WellFormed(first) && r.index < first.index < 0x8000_0000
    requires forall p <- ps :: WellFormed(p) && p.index == first.index
    ensures Complete(Deliver(r, [first] + ps)) <==>
      forall i :: 0 <= i < MinCount(first.count, ps) ==> Arrived([first] + ps, i)
  {
    ClassifyAgrees(r, first);
    var r1 := Receive(r, first);
    assert ([first] + ps)[1..] == ps;
    CollectPages(r1, ps);
    var r' := Deliver(r, [first] + ps);
    assert r' == Deliver(r1, ps);
    forall i | 0 <= i < PageSlots
      ensures r'.got[i] <==> Arrived([first] + ps, i)
    {
      if Arrived(ps, i) {
        var k :| 0 <= k < |ps| && ps[k].page == i;
        assert ([first] + ps)[k + 1].page == i;
      }
      if Arrived([first] + ps, i) && i != first.page {
        var k :| 0 <= k < |[first] + ps| && ([first] + ps)[k].page == i;
        assert ps[k - 1].page == i;
      }
    }
  }

  /** The reassembly variables of udpReceiver. `packetsReceived` is a local
      array that the program never initialises; its first contents are a
      constructor argument. */
  class StatusReceiver {
    var statusIndex: int
    var packetsCnt: nat
    const received: array<bool>

    function State(): Reassembly
      reads this, received
    {
      Reassembly(statusIndex, packetsCnt, received[..])
    }

    ghost predicate Valid()
      reads this, received
    {
      received.Length == PageSlots && ValidReassembly(State())
    }

    constructor(garbage: seq<bool>)
      requires |garbage| == PageSlots
      ensures Valid() && State() == Reassembly(-1, 0, garbage)
    {
      statusIndex := -1;
      packetsCnt := 0;
      received := new bool[PageSlots](i requires 0 <= i < PageSlots => garbage[i]);
    }

    /** One PACKET_STATUS packet. It is ignored unless the client is
        connected; otherwise the state moves as Receive says. `reset` tells
        that the status screen was reset for a newer status, `complete`
        that the status is complete and is shown. */
    method OnStatus(connected: bool, p: StatusPage) returns (reset: bool, complete: bool)
      requires Valid() && WellFormed(p)
      modifies this`statusIndex, this`packetsCnt, received
      ensures Valid()
      ensures State() == if connected then Receive(old(State()), p) else old(State())
      ensures reset <==> connected && Classify(old(State()), p) == Newer
      ensures complete <==> connected && Classify(old(State()), p) != Older && Complete(State())
    {
      reset, complete := false, false;
      if !connected {
        return;
      }
      ghost var before := State();
      if Wrap32(p.index) > statusIndex {
        statusIndex := Wrap32(p.index);
        packetsCnt := p.count;
        ClearReceived();
        reset := true;
      } else if p.index < statusIndex % Uint32Mod {
        return;
      } else if packetsCnt > p.count {
        packetsCnt := p.count;
      }
      received[p.page] := true;
      assert State() == Receive(before, p);
      complete := AllReceived();
    }

    method ClearReceived()
      requires received.Length == PageSlots
      modifies received
      ensures forall i :: 0 <= i < PageSlots ==> !received[i]
    {
      for i := 0 to PageSlots
        invariant forall k :: 0 <= k < i ==> !received[k]
      {
        received[i] := false;
      }
    }

    /** The completeness scan: the first missing page below `packetsCnt`
        stops it. */
    method AllReceived() returns (complete: bool)
      requires Valid()
      ensures complete <==> Complete(State())
    {
      var i := 0;
      while i < packetsCnt
        invariant 0 <= i <= packetsCnt
        invariant forall k :: 0 <= k < i ==> received[k]
      {
        if !received[i] {
          return false;
        }
        i := i + 1;
      }
      return true;
    }
  }

  // ---------------------------------------------------------------------
  // The server's helo string (the PACKET_HELO case of udpReceiver)

  /** Index of the first `c` in `s`, or |s| when there is none. */
  function Find(s: seq<char>, c: char): (q: nat)
    ensures q <= |s| && (q < |s| ==> s[q] == c)
  {
    if s == [] || s[0] == c then 0 else 1 + Find(s[1..], c)
  }

  lemma {:induction false} BeforeFind(s: seq<char>, c: char, k: nat)
    requires k < Find(s, c)
    ensures s[k] != c
  {
    if k > 0 {
      BeforeFind(s[1..], c, k - 1);
    }
  }

  /** `Find` is the first position holding `c`. */
  lemma {:induction false} FindIs(s: seq<char>, c: char, q: nat)
    requires q <= |s| && (q < |s| ==> s[q] == c)
    requires forall k :: 0 <= k < q ==> s[k] != c
    ensures Find(s, c) == q
  {
    if q > 0 {
      FindIs(s[1..], c, q - 1);
    }
  }

  lemma {:induction false} FindAtLeast(s: seq<char>, c: char, i: nat)
    requires i <= |s| && forall k :: 0 <= k < i ==> s[k] != c
    ensures Find(s, c) >= i
  {
    if i > 0 {
      FindAtLeast(s[1..], c, i - 1);
    }
  }

  /** The C string held by `s`: the characters before its first '\0'. */
  function CStr(s: seq<char>): seq<char>
  {
    s[..Find(s, '\0')]
  }

  /** The helo text as kept in `sHeloStr` of `n + 1` characters: the C
      string of the packet, cut to `n` characters. */
  function HeloText(str: seq<char>, n: nat): (t: seq<char>)
    ensures |t| <= n && '\0' !in t
  {
    var c := CStr(str);
    forall k | 0 <= k < |c|
      ensures c[k] != '\0'
    {
      BeforeFind(str, '\0', k);
    }
    if |c| <= n then c else c[..n]
  }

  /** `serverKeys`: the helo text up to its first '\n'. */
  function HeloKeys(t: seq<char>): seq<char>
  {
    t[..Find(t, '\n')]
  }

  /** `serverKeysDesc`: the helo text after its first '\n', or empty
      when there is none. */
  function HeloDesc(t: seq<char>): seq<char>
  {
    var b := Find(t, '\n');
    if b == |t| then [] else t[b + 1..]
  }

  /** The split loses nothing: the keys hold no '\n', and keys, '\n' and
      description give back the helo text; without a '\n' the keys are the
      whole text and the description is empty. */
  lemma HeloSplit(t: seq<char>)
    ensures '\n' !in HeloKeys(t)
    ensures '\n' in t ==> HeloKeys(t) + ['\n'] + HeloDesc(t) == t
    ensures '\n' !in t ==> HeloKeys(t) == t && HeloDesc(t) == []
  {
    var b := Find(t, '\n');
    forall k | 0 <= k < b
      ensures t[k] != '\n'
    {
      BeforeFind(t, '\n', k);
    }
    if b == |t| {
      assert t[..b] == t;
    } else {
      assert t == t[..b] + [t[b]] + t[b + 1..];
    }
  }

  /** The C string of a buffer whose first '\0' is at `q`. */
  lemma CStrAt(a: seq<char>, q: nat)
    requires q < |a| && a[q] == '\0'
    requires forall k :: 0 <= k < q ==> a[k] != '\0'
    ensures CStr(a) == a[..q]
  {
    FindIs(a, '\0', q);
  }

  /** The PACKET_HELO handling of `sHeloStr`: `strncpy` of the packet's
      string into the `n + 1` characters of `buf`, a '\0' at index `n`,
      then the first '\n' replaced by '\0'. The keys are the C string at
      the start of `buf`; the description is the C string at the returned
      index, or the empty literal when there is no '\n'. */
  method AcceptHelo(buf: array<char>, str: seq<char>) returns (desc: Option<nat>)
    requires buf.Length >= 1
    modifies buf
    ensures CStr(buf[..]) == HeloKeys(HeloText(str, buf.Length - 1))
    ensures desc.None? <==> '\n' !in HeloText(str, buf.Length - 1)
    ensures desc.Some? ==> desc.value <= buf.Length && CStr(buf[desc.value..]) == HeloDesc(HeloText(str, buf.Length - 1))
  {
    var n := buf.Length - 1;
    ghost var t := HeloText(str, n);
    var copied := CopyString(buf, str);
    buf[n] := '\0';
    desc := SplitKeys(buf, t);
  }

  /** The `strchr` for '\n' in `sHeloStr` and the '\0' written over it. */
  method SplitKeys(buf: array<char>, ghost t: seq<char>) returns (desc: Option<nat>)
    requires |t| < buf.Length && '\0' !in t && buf[|t|] == '\0'
    requires forall k :: 0 <= k < |t| ==> buf[k] == t[k]
    modifies buf
    ensures CStr(buf[..]) == HeloKeys(t)
    ensures desc.None? <==> '\n' !in t
    ensures desc.Some? ==> desc.value <= buf.Length && CStr(buf[desc.value..]) == HeloDesc(t)
  {
    var j := 0;
    while buf[j] != '\0' && buf[j] != '\n'
      invariant 0 <= j <= |t|
      invariant forall k :: 0 <= k < j ==> t[k] != '\n'
      decreases |t| - j
    {
      j := j + 1;
    }
    FindIs(t, '\n', j);
    if buf[j] == '\n' {
      buf[j] := '\0';
      desc := Some(j + 1);
    } else {
      desc := None;
    }
    CutAt(buf[..], t, j);
  }

  /** A buffer holding the text `t`, a '\0' at `|t|` and a '\0' written at
      `j`: its C string is `t` up to `j`, and the C string after `j` is the
      rest of `t`. */
  lemma CutAt(a: seq<char>, t: seq<char>, j: nat)
    requires j <= |t| < |a| && '\0' !in t && a[j] == '\0' && a[|t|] == '\0'
    requires forall k :: 0 <= k < |t| && k != j ==> a[k] == t[k]
    ensures CStr(a) == t[..j]
    ensures j < |t| ==> CStr(a[j + 1..]) == t[j + 1..]
  {
    CStrAt(a, j);
    assert a[..j] == t[..j];
    if j < |t| {
      var b := a[j + 1..];
      CStrAt(b, |t| - (j + 1));
      assert b[..|t| - (j + 1)] == t[j + 1..];
    }
  }

  /** `strncpy`: the characters of the C string of `str` that fit, then
      '\0' up to the end of `buf`. */
  method CopyString(buf: array<char>, str: seq<char>) returns (copied: nat)
    requires buf.Length >= 1
    modifies buf
    ensures copied == Min(|CStr(str)|, buf.Length)
    ensures forall k :: 0 <= k < copied ==> buf[k] == str[k]
    ensures forall k :: copied <= k < buf.Length ==> buf[k] == '\0'
  {
    var i := 0;
    while i < buf.Length && i < |str| && str[i] != '\0'
      invariant 0 <= i <= buf.Length && i <= |str|
      invariant forall k :: 0 <= k < i ==> buf[k] == str[k] && str[k] != '\0'
    {
      buf[i] := str[i];
      i := i + 1;
    }
    copied := i;
    if i < buf.Length {
      FindIs(str, '\0', i);
    }
    while i < buf.Length
      invariant copied <= i <= buf.Length
      invariant forall k :: 0 <= k < copied ==> buf[k] == str[k]
      invariant forall k :: copied <= k < i ==> buf[k] == '\0'
    {
      buf[i] := '\0';
      i := i + 1;
    }
  }

  // ---------------------------------------------------------------------
  // Captured blocks (inputCallback)

  datatype Mode = Discard | MeasureLatency | ToOutput | NullToOutput | Send | SendMute | End

  /** Sample `i` of the mono block: the first channel of frame `i` of a
      block of `n` frames of `channels` interleaved samples. */
  function MonoOf(block: seq<int>, channels: nat, n: nat): (m: seq<int>)
    requires channels >= 1 && n * channels <= |block|
    ensures |m| == n
  {
    seq(n, i requires 0 <= i < n => FrameStart(block, channels, n, i))
  }

  function FrameStart(block: seq<int>, channels: nat, n: nat, i: nat): int
    requires channels >= 1 && n * channels <= |block| && i < n
  {
    MulSucc(i, channels);
    MulLe(channels, i + 1, n);
    block[i * channels]
  }

  /** The stereo block that echoes a mono block: each sample on both
      channels. */
  function Stereo(m: seq<int>): (st: seq<int>)
    ensures |st| == 2 * |m|
  {
    seq(2 * |m|, k requires 0 <= k < 2 * |m| => m[k / 2])
  }

  /** Channel `c` (0 left, 1 right) of an interleaved stereo block. */
  function Channel(st: seq<int>, c: nat): seq<int>
    requires c < 2
  {
    seq(|st| / 2, i requires 0 <= i < |st| / 2 => st[2 * i + c])
  }

  /** The echo carries the mono block unchanged on both channels, and taking
      the first channel of the echo as a two-channel block gives the mono
      block back. */
  lemma StereoRoundTrip(m: seq<int>)
    ensures Channel(Stereo(m), 0) == m && Channel(Stereo(m), 1) == m
    ensures MonoOf(Stereo(m), 2, |m|) == m
  {
    forall i | 0 <= i < |m|
      ensures Stereo(m)[2 * i] == m[i] && Stereo(m)[2 * i + 1] == m[i]
    {
      StereoAt(m, i);
    }
    ChannelsOf(Stereo(m), m);
    MonoOfStereo(m);
  }

  lemma StereoAt(m: seq<int>, i: nat)
    requires i < |m|
    ensures Stereo(m)[2 * i] == m[i] && Stereo(m)[2 * i + 1] == m[i]
  {
    assert (2 * i) / 2 == i && (2 * i + 1) / 2 == i;
  }

  lemma ChannelsOf(st: seq<int>, m: seq<int>)
    requires |st| == 2 * |m|
    requires forall i :: 0 <= i < |m| ==> st[2 * i] == m[i] && st[2 * i + 1] == m[i]
    ensures Channel(st, 0) == m && Channel(st, 1) == m
  {
    assert |st| / 2 == |m|;
    forall i | 0 <= i < |m|
      ensures Channel(st, 0)[i] == m[i] && Channel(st, 1)[i] == m[i]
    {
      assert Channel(st, 0)[i] == st[2 * i] && Channel(st, 1)[i] == st[2 * i + 1];
    }
  }

  lemma MonoOfStereo(m: seq<int>)
    requires forall i :: 0 <= i < |m| ==> Stereo(m)[2 * i] == m[i]
    ensures MonoOf(Stereo(m), 2, |m|) == m
  {
    forall i | 0 <= i < |m|
      ensures MonoOf(Stereo(m), 2, |m|)[i] == m[i]
    {
      assert i * 2 == 2 * i;
    }
  }

  /** A one-channel block is its own mono block. */
  lemma MonoOfMono(block: seq<int>)
    ensures MonoOf(block, 1, |block|) == block
  {
    assert |block| * 1 == |block|;
    forall i | 0 <= i < |block|
      ensures MonoOf(block, 1, |block|)[i] == block[i]
    {
      assert i * 1 == i;
    }
  }

  /** The counter value a block is sent with: entering INPUT_SEND restarts
      the numbering at 0 unless the previous mode was INPUT_SEND_MUTE. */
  function Started(last: Mode, mode: Mode, blockIndex: nat): nat
  {
    if mode != last && mode == Send && last != SendMute then 0 else blockIndex
  }

  /** The static variables of inputCallback: the block counter and the
      mode of the previous call. */
  datatype InputState = InputState(blockIndex: nat, lastMode: Mode)

  function Step(s: InputState, mode: Mode): (s': InputState)
    requires s.blockIndex < Uint32Mod
    ensures s'.blockIndex < Uint32Mod && s'.lastMode == mode
  {
    var first := Started(s.lastMode, mode, s.blockIndex);
    InputState(if mode == Send then (first + 1) % Uint32Mod else first, mode)
  }

  /** What one call does with the captured block. */
  datatype Effect =
    | Idle
      /** a PACKET_DATA packet */
    | Sent(blockIndex: nat, playBlockIndex: nat, mono: seq<int>)
      /** `sbufferWriteNext` of a stereo block */
    | Played(stereo: seq<int>)
      /** `aioLatBlock` hears the mono block with the buffered lag and
          overwrites it with the test signal; the stereo form of what it
          wrote is played */
    | Measured(mono: seq<int>, lag: int, stereo: seq<int>)

  /** The effect of one call on the mono block `mono`; `test` is what
      `aioLatBlock` writes over the block in INPUT_MEASURE_LATENCY. */
  function EffectOf(s: InputState, mode: Mode, mono: seq<int>, readPos: nat, writeLastPos: nat, test: seq<int>): Effect
  {
    match mode
    case Send => Sent(Started(s.lastMode, mode, s.blockIndex), readPos, mono)
    case ToOutput => Played(Stereo(mono))
    case NullToOutput => Played(Zeros(2 * |mono|))
    case MeasureLatency => Measured(mono, Wrap32(writeLastPos + 1 - readPos), Stereo(test))
    case _ => Idle
  }

  /** While the latency is measured, the output is the test signal and not
      the microphone: the block played does not depend on the block
      captured, and the blocks that fall in the first `wait` samples after
      the reset play silence. */
  lemma MeasuredEcho(s: InputState, mono: seq<int>, mono': seq<int>, readPos: nat, writeLastPos: nat,
                     wait: nat, beep: nat, p: nat, n: nat, tone: nat -> bool)
    ensures var test := AudioIO.TestSignal(wait, beep, p, n, tone);
      var e := EffectOf(s, MeasureLatency, mono, readPos, writeLastPos, test);
      e.Measured? && e.mono == mono &&
      e.stereo == EffectOf(s, MeasureLatency, mono', readPos, writeLastPos, test).stereo &&
      (p + n < wait ==> e.stereo == Zeros(2 * n))
  {
    var test := AudioIO.TestSignal(wait, beep, p, n, tone);
    if p + n < wait {
      forall k | 0 <= k < 2 * n
        ensures Stereo(test)[k] == 0
      {
        var i := k / 2;
        assert 0 <= i < n;
        assert Stereo(test)[k] == test[i] == AudioIO.Emitted(wait, beep, p + i + 1, tone);
      }
    }
  }

  /** The block numbers sent over a run of calls. */
  function SentIndices(s: InputState, modes: seq<Mode>): seq<nat>
    requires s.blockIndex < Uint32Mod
    decreases |modes|
  {
    if modes == [] then []
    else
      var head := if modes[0] == Send then [Started(s.lastMode, modes[0], s.blockIndex)] else [];
      head + SentIndices(Step(s, modes[0]), modes[1..])
  }

  function SendCount(modes: seq<Mode>): nat
  {
    if modes == [] then 0 else (if modes[0] == Send then 1 else 0) + SendCount(modes[1..])
  }

  /** While the user only mutes and unmutes, the packets sent carry
      consecutive block numbers (modulo 2^32), continuing from the counter. */
  lemma {:induction false} ConsecutivePackets(s: InputState, modes: seq<Mode>)
    requires s.blockIndex < Uint32Mod && (s.lastMode == Send || s.lastMode == SendMute)
    requires forall m <- modes :: m == Send || m == SendMute
    ensures SentIndices(s, modes) == seq(SendCount(modes), i => (s.blockIndex + i) % Uint32Mod)
    decreases |modes|
  {
    if modes != [] {
      assert modes[0] in modes;
      assert forall m <- modes[1..] :: m in modes;
      var s1 := Step(s, modes[0]);
      ConsecutivePackets(s1, modes[1..]);
      var rest := SentIndices(s1, modes[1..]);
      if modes[0] == Send {
        assert s1.blockIndex == (s.blockIndex + 1) % Uint32Mod;
        forall i | 0 <= i < |rest|
          ensures rest[i] == (s.blockIndex + i + 1) % Uint32Mod
        {
          ModAddOne(s.blockIndex, i);
        }
      }
    }
  }

  lemma ModAddOne(b: nat, i: nat)
    ensures ((b + 1) % Uint32Mod + i) % Uint32Mod == (b + i + 1) % Uint32Mod
  {
  }

  /** The first packet after any mode other than INPUT_SEND_MUTE is block 0;
      after INPUT_SEND_MUTE the numbering goes on. */
  lemma FirstPacket(s: InputState)
    requires s.blockIndex < Uint32Mod && s.lastMode != Send
    ensures SentIndices(s, [Send]) == [if s.lastMode == SendMute then s.blockIndex else 0]
  {
  }

  /** The static state of inputCallback for a block size `blockSize`
      (MONO_BLOCK_SIZE), with the latency meter of audioIO.h it feeds. */
  class InputCallback {
    const blockSize: nat
    var blockIndex: nat
    var lastMode: Mode
    /** The `aioLat*` globals. */
    const meter: AudioIO.LatencyMeter

    function State(): InputState
      reads this
    {
      InputState(blockIndex, lastMode)
    }

    constructor(blockSize: nat)
      requires blockSize > 0
      ensures this.blockSize == blockSize && State() == InputState(0, End)
      ensures fresh(meter) && fresh(meter.sqSums) && meter.Valid() && meter.n == blockSize && meter.heard == []
    {
      this.blockSize := blockSize;
      blockIndex := 0;
      lastMode := End;
      meter := new AudioIO.LatencyMeter(blockSize);
    }

    /** One call for a captured block of `blockSize` frames of `channels`
        interleaved samples, in mode `mode`. `readPos` and `writeLastPos`
        are those of the output buffer and `tone` is the square wave of the
        beep. `latencyReset` tells that `aioLatReset` ran; `more` is false
        when the stream is to stop. */
    method Run(mode: Mode, block: seq<int>, channels: nat, readPos: nat, writeLastPos: nat, tone: nat -> bool)
      returns (eff: Effect, latencyReset: bool, more: bool)
      requires channels >= 1 && blockSize * channels <= |block| && blockIndex < Uint32Mod
      requires meter.Valid() && meter.n == blockSize
      modifies this`blockIndex, this`lastMode, meter, meter.sqSums
      ensures State() == Step(old(State()), mode)
      ensures latencyReset <==> mode == MeasureLatency && old(lastMode) != MeasureLatency
      ensures more <==> mode != End
      ensures meter.Valid()
      ensures var mono := MonoOf(block, channels, blockSize);
        var p := if latencyReset then 0 else old(meter.pos);
        var h := if latencyReset then [] else old(meter.heard);
        eff == EffectOf(old(State()), mode, mono, readPos, writeLastPos,
                        AudioIO.TestSignal(meter.wait, meter.beep, p, blockSize, tone)) &&
        (mode == MeasureLatency ==> meter.heard == h + mono && meter.pos == p + blockSize) &&
        (mode != MeasureLatency ==> meter.heard == old(meter.heard) && meter.pos == old(meter.pos))
    {
      var mono := DownMix(block, channels, blockSize);
      latencyReset := Enter(mode);
      eff := Act(mode, mono, readPos, writeLastPos, tone);
      more := mode != End;
    }

    /** The mode change at the head of the callback: `aioLatReset` on
        entering INPUT_MEASURE_LATENCY, the counter restart on entering
        INPUT_SEND from anything but INPUT_SEND_MUTE. */
    method Enter(mode: Mode) returns (latencyReset: bool)
      requires meter.Valid()
      modifies this`blockIndex, this`lastMode, meter
      ensures lastMode == mode && blockIndex == Started(old(lastMode), mode, old(blockIndex))
      ensures latencyReset <==> mode == MeasureLatency && old(lastMode) != MeasureLatency
      ensures meter.Valid()
      ensures latencyReset ==> meter.heard == [] && meter.pos == 0
      ensures !latencyReset ==> meter.heard == old(meter.heard) && meter.pos == old(meter.pos)
    {
      latencyReset := false;
      if mode != lastMode {
        if mode == MeasureLatency {
          latencyReset := true;
          var _ := meter.Reset();
        } else if mode == Send && lastMode != SendMute {
          blockIndex := 0;
        }
        lastMode := mode;
      }
    }

    /** The switch on the mode: the packet, the echo, the silence or the
        latency measurement followed by the echo of the test signal. */
    method Act(mode: Mode, mono: array<int>, readPos: nat, writeLastPos: nat, tone: nat -> bool)
      returns (eff: Effect)
      requires mono.Length == blockSize && lastMode == mode
      requires meter.Valid() && meter.n == blockSize && mono != meter.sqSums
      modifies this`blockIndex, meter, meter.sqSums, mono
      ensures blockIndex == if mode == Send then (old(blockIndex) + 1) % Uint32Mod else old(blockIndex)
      ensures eff == EffectOf(old(State()), mode, old(mono[..]), readPos, writeLastPos,
                              AudioIO.TestSignal(meter.wait, meter.beep, old(meter.pos), blockSize, tone))
      ensures meter.Valid()
      ensures mode == MeasureLatency ==> meter.heard == old(meter.heard) + old(mono[..]) && meter.pos == old(meter.pos) + blockSize
      ensures mode != MeasureLatency ==> meter.heard == old(meter.heard) && meter.pos == old(meter.pos)
    {
      match mode {
        case Send =>
          eff := Sent(blockIndex, readPos, mono[..]);
          blockIndex := (blockIndex + 1) % Uint32Mod;
        case ToOutput =>
          var st := ToStereo(mono);
          eff := Played(st[..]);
        case NullToOutput =>
          eff := Played(Zeros(2 * blockSize));
        case MeasureLatency =>
          var heard := mono[..];
          ghost var p := meter.pos;
          var lag := Wrap32(writeLastPos + 1 - readPos);
          meter.Block(mono, lag, tone);
          assert mono[..] == AudioIO.TestSignal(meter.wait, meter.beep, p, blockSize, tone);
          var st := ToStereo(mono);
          eff := Measured(heard, lag, st[..]);
        case _ =>
          eff := Idle;
      }
    }
  }

  /** The mono copy of the captured block: frame `i` starts at sample
      `i * channels`. */
  method DownMix(block: seq<int>, channels: nat, n: nat) returns (mono: array<int>)
    requires channels >= 1 && n * channels <= |block|
    ensures fresh(mono) && mono[..] == MonoOf(block, channels, n)
  {
    mono := new int[n];
    var i, j := 0, 0;
    while i < n
      invariant 0 <= i <= n && j == i * channels
      invariant forall k :: 0 <= k < i ==> mono[k] == MonoOf(block, channels, n)[k]
    {
      mono[i] := FrameStart(block, channels, n, i);
      MulSucc(i, channels);
      i, j := i + 1, j + channels;
    }
  }

  /** The echo loop: each mono sample written to both channels. */
  method ToStereo(mono: array<int>) returns (st: array<int>)
    ensures fresh(st) && st[..] == Stereo(mono[..])
  {
    st := new int[2 * mono.Length];
    var i, j := 0, 0;
    while i < mono.Length
      invariant 0 <= i <= mono.Length && j == 2 * i
      invariant forall k :: 0 <= k < j ==> st[k] == mono[k / 2]
    {
      st[j] := mono[i];
      st[j + 1] := mono[i];
      i, j := i + 1, j + 2;
    }
  }

  // ---------------------------------------------------------------------
  // Key presses (the key loop of main)

  datatype UdpState = Waiting | Connected | Closed

  /** What a key does: the mode toggled, a key press sent to the server
      with its index, nothing, or the answer to the reconnect question. */
  datatype KeyAction = Toggled | Forwarded(key: char, index: int) | Ignored | Reconnect | Exit

  /** 'M': INPUT_SEND becomes INPUT_SEND_MUTE, any other mode INPUT_SEND. */
  function Toggle(m: Mode): Mode
  {
    if m == Send then SendMute else Send
  }

  /** `strchr(serverKeys, c)` finds `c` in the C string of `serverKeys`,
      or its terminator when `c` is '\0'. */
  predicate KeyOffered(serverKeys: seq<char>, c: char)
  {
    c == '\0' || c in CStr(serverKeys)
  }

  /** The state the key loop works on: the shared `inputMode` and the
      loop's `keyPressIndex`. */
  datatype KeyState = KeyState(mode: Mode, next: int)

  function Press(s: KeyState, c: char, udp: UdpState, serverKeys: seq<char>): (KeyState, KeyAction)
  {
    if udp == Closed then
      (s, if c == 'y' then Reconnect else if c == 'n' then Exit else Ignored)
    else if c == 'M' then
      (s.(mode := Toggle(s.mode)), Toggled)
    else if KeyOffered(serverKeys, c) then
      (s.(next := s.next + 1), Forwarded(c, s.next))
    else
      (s, Ignored)
  }

  /** Muting twice gives back the mode, and 'M' always leaves the client
      sending or muted. */
  lemma ToggleTwice(m: Mode)
    ensures Toggle(m) == Send || Toggle(m) == SendMute
    ensures m == Send || m == SendMute ==> Toggle(Toggle(m)) == m
  {
  }

  /** The key presses forwarded while connected, in order. */
  function Forwards(s: KeyState, keys: seq<char>, serverKeys: seq<char>): seq<KeyAction>
    decreases |keys|
  {
    if keys == [] then []
    else
      var (s', a) := Press(s, keys[0], Connected, serverKeys);
      (if a.Forwarded? then [a] else []) + Forwards(s', keys[1..], serverKeys)
  }

  /** Forwarded key presses carry consecutive indices from the loop's
      counter; 'M' and keys the server does not offer are never sent. */
  lemma {:induction false} ForwardIndices(s: KeyState, keys: seq<char>, serverKeys: seq<char>)
    ensures forall i :: 0 <= i < |Forwards(s, keys, serverKeys)| ==>
      Forwards(s, keys, serverKeys)[i].Forwarded? && Forwards(s, keys, serverKeys)[i].index == s.next + i
    ensures forall a <- Forwards(s, keys, serverKeys) :: a.key != 'M' && KeyOffered(serverKeys, a.key)
    decreases |keys|
  {
    if keys != [] {
      var (s', a) := Press(s, keys[0], Connected, serverKeys);
      ForwardIndices(s', keys[1..], serverKeys);
      var rest := Forwards(s', keys[1..], serverKeys);
      if a.Forwarded? {
        assert s'.next == s.next + 1;
        assert Forwards(s, keys, serverKeys) == [a] + rest;
      } else {
        assert s'.next == s.next;
        assert Forwards(s, keys, serverKeys) == rest;
      }
    }
  }

  /** The key loop of main between two connections. */
  class KeyLoop {
    var mode: Mode
    var keyPressIndex: int

    function State(): KeyState
      reads this
    {
      KeyState(mode, keyPressIndex)
    }

    /** A new connection starts counting key presses at 1. */
    constructor(mode: Mode)
      ensures State() == KeyState(mode, 1)
    {
      this.mode := mode;
      keyPressIndex := 1;
    }

    /** One key read while the UDP thread is in state `udp`. */
    method OnKey(c: char, udp: UdpState, serverKeys: seq<char>) returns (a: KeyAction)
      modifies this
      ensures (State(), a) == Press(old(State()), c, udp, serverKeys)
    {
      if udp == Closed {
        a := if c == 'y' then Reconnect else if c == 'n' then Exit else Ignored;
        return;
      }
      if c == 'M' {
        mode := if mode == Send then SendMute else Send;
        return Toggled;
      }
      var offered := FindKey(serverKeys, c);
      if offered {
        a := Forwarded(c, keyPressIndex);
        keyPressIndex := keyPressIndex + 1;
      } else {
        a := Ignored;
      }
    }
  }

  /** The `strchr` scan of `serverKeys`: it stops at the key or at the
      terminator, which also matches a '\0' key. */
  method FindKey(serverKeys: seq<char>, c: char) returns (found: bool)
    ensures found <==> KeyOffered(serverKeys, c)
  {
    var i := 0;
    while i < |serverKeys| && serverKeys[i] != '\0' && serverKeys[i] != c
      invariant 0 <= i <= |serverKeys|
      invariant forall k :: 0 <= k < i ==> serverKeys[k] != '\0' && serverKeys[k] != c
    {
      i := i + 1;
    }
    var q := Find(serverKeys, '\0');
    if i < |serverKeys| && serverKeys[i] == c {
      found := true;
      if c != '\0' {
        FindAtLeast(serverKeys, '\0', i);
        assert CStr(serverKeys)[i] == c;
      }
    } else {
      found := c == '\0';
      FindIs(serverKeys, '\0', i);
      assert c !in CStr(serverKeys) by {
        forall k | 0 <= k < |CStr(serverKeys)|
          ensures CStr(serverKeys)[k] != c
        {
          assert CStr(serverKeys)[k] == serverKeys[k];
        }
      }
    }
  }
}
