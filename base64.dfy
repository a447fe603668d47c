// base64encode of webclient.c, which encodes the WebSocket handshake key:
// the Base 64 encoding of section 4 of RFC 4648 and the loop that writes it.

module Base64Codec {
  import Samples

  /** Bytes of `raw`. The source reads them through a `char *`; the model
      takes them unsigned. */
  type Byte = x: int | 0 <= x < 256

  /** `tbl[v]` of base64encode: the alphabet of section 4 of RFC 4648,
      'A'..'Z', 'a'..'z', '0'..'9', '+' and '/'. */
  function Digit(v: nat): char
    requires v < 64
  {
    if v < 26 then ('A' as int + v) as char
    else if v < 52 then ('a' as int + (v - 26)) as char
    else if v < 62 then ('0' as int + (v - 52)) as char
    else if v == 62 then '+'
    else '/'
  }

  // ---------------------------------------------------------------------
  // Base 64 as section 4 of RFC 4648 defines it

  /** The four characters of a full 24-bit group: its four 6-bit groups,
      most significant first. */
  function Quad(b0: Byte, b1: Byte, b2: Byte): string
  {
    [Digit(b0 / 4), Digit(b0 % 4 * 16 + b1 / 16), Digit(b1 % 16 * 4 + b2 / 64), Digit(b2 % 64)]
  }

  /** The encoding of the first `g` whole groups of three bytes. */
  function Quads(data: seq<Byte>, g: nat): (r: string)
    requires 3 * g <= |data|
    ensures |r| == 4 * g
  {
    if g == 0 then []
    else Quads(data, g - 1) + Quad(data[3 * g - 3], data[3 * g - 2], data[3 * g - 1])
  }

  /** The final, partial group: padded with zero bits to whole 6-bit
      groups, one byte becomes two characters and "==", two bytes three
      characters and "=". */
  function Tail(data: seq<Byte>): (r: string)
    requires |data| < 3
  {
    if |data| == 0 then []
    else if |data| == 1 then Quad(data[0], 0, 0)[..2] + Pads(2)
    else Quad(data[0], data[1], 0)[..3] + Pads(1)
  }

  /** `k` padding characters. */
  function Pads(k: nat): (r: string)
    ensures |r| == k
  {
    seq(k, _ => '=')
  }

  /** The Base 64 encoding of `data`. */
  function Base64(data: seq<Byte>): string
  {
    var g := |data| / 3;
    Quads(data, g) + Tail(data[3 * g..])
  }

  // ---------------------------------------------------------------------
  // base64encode

  /** The chunks the outer loop encodes for `len` bytes: one per pass
      while `len` is positive, each pass taking three bytes. */
  function GroupCount(len: int): (r: nat)
    ensures len <= 3 * r && (len > -3 ==> 3 * r < len + 3)
    decreases len
  {
    if len <= 0 then 0 else 1 + GroupCount(len - 3)
  }

  /** The bytes the outer loop reads past the end, which become '='. */
  function PadCount(len: nat): nat
  {
    3 * GroupCount(len) - len
  }

  /** `raw[0] << 16 | raw[1] << 8 | raw[2]`: the shifted bytes occupy
      disjoint bits, so the `|` adds them. */
  function Chunk(b0: Byte, b1: Byte, b2: Byte): nat
  {
    b0 * 65536 + b1 * 256 + b2
  }

  function Pow2(i: nat): (r: nat)
    ensures r > 0
  {
    if i == 0 then 1 else 2 * Pow2(i - 1)
  }

  /** `tbl[chunk >> i & 0x3F]`. */
  function Sextet(chunk: nat, i: nat): char
  {
    Digit(chunk / Pow2(i) % 64)
  }

  /** The characters the inner loop writes for one chunk: shifts 18, 12, 6
      and 0. */
  function ChunkChars(chunk: nat): (r: string)
    ensures |r| == 4
  {
    seq(4, k requires 0 <= k < 4 => Sextet(chunk, 18 - 6 * k))
  }

  /** The characters the outer loop writes for its first `g` chunks. */
  function Groups(raw: seq<Byte>, g: nat): (r: string)
    requires 3 * g <= |raw|
    ensures |r| == 4 * g
  {
    if g == 0 then []
    else Groups(raw, g - 1) + ChunkChars(Chunk(raw[3 * g - 3], raw[3 * g - 2], raw[3 * g - 1]))
  }

  /** What base64encode leaves before the '\0' for `len` bytes: the chunks
      covering them, the last `PadCount(len)` characters replaced by '='. */
  function Encoded(raw: seq<Byte>, len: nat): (r: string)
    requires 3 * GroupCount(len) <= |raw|
  {
    var g := GroupCount(len);
    var pad := PadCount(len);
    Groups(raw, g)[..4 * g - pad] + Pads(pad)
  }

  /** The chunk count is ceil(len / 3), as in section 4 of RFC 4648. */
  lemma GroupCountIsCeiling(len: nat)
    ensures GroupCount(len) == (len + 2) / 3
  {
    var g := GroupCount(len);
    Samples.DivModUnique(len + 2, 3, g, len + 2 - 3 * g);
  }

  lemma Powers()
    ensures Pow2(0) == 1 && Pow2(6) == 64 && Pow2(12) == 4096 && Pow2(18) == 262144
  {
  }

  /** The chunk arithmetic picks the same 6-bit groups as the RFC. */
  lemma {:induction false} ChunkIsQuad(b0: Byte, b1: Byte, b2: Byte)
    ensures ChunkChars(Chunk(b0, b1, b2)) == Quad(b0, b1, b2)
  {
    var c := Chunk(b0, b1, b2);
    Powers();
    Samples.DivModUnique(c, 262144, b0 / 4, b0 % 4 * 65536 + b1 * 256 + b2);
    Samples.DivModUnique(b0 / 4, 64, 0, b0 / 4);
    Samples.DivModUnique(c, 4096, b0 * 16 + b1 / 16, b1 % 16 * 256 + b2);
    Samples.DivModUnique(b0 * 16 + b1 / 16, 64, b0 / 4, b0 % 4 * 16 + b1 / 16);
    Samples.DivModUnique(c, 64, b0 * 1024 + b1 * 4 + b2 / 64, b2 % 64);
    Samples.DivModUnique(b0 * 1024 + b1 * 4 + b2 / 64, 64, b0 * 16 + b1 / 16, b1 % 16 * 4 + b2 / 64);
    Samples.DivModUnique(c, 1, c, 0);
  }

  /** Chunk by chunk, the outer loop writes the RFC encoding. */
  lemma {:induction false} GroupsAreQuads(raw: seq<Byte>, g: nat)
    requires 3 * g <= |raw|
    ensures Groups(raw, g) == Quads(raw, g)
  {
    if g > 0 {
      GroupsAreQuads(raw, g - 1);
      ChunkIsQuad(raw[3 * g - 3], raw[3 * g - 2], raw[3 * g - 1]);
    }
  }

  /** The whole groups depend only on their own bytes. */
  lemma {:induction false} QuadsPrefix(a: seq<Byte>, b: seq<Byte>, g: nat)
    requires 3 * g <= |a| && 3 * g <= |b| && forall k :: 0 <= k < 3 * g ==> a[k] == b[k]
    ensures Quads(a, g) == Quads(b, g)
  {
    if g > 0 {
      QuadsPrefix(a, b, g - 1);
    }
  }

  /** With `raw` zero beyond `len` up to the next whole group, as the
      source demands of its callers, base64encode writes the RFC encoding
      of the `len` bytes, 4 * ceil(len / 3) characters. */
  lemma EncodedIsBase64(raw: seq<Byte>, len: nat)
    requires 3 * GroupCount(len) <= |raw|
    requires forall k :: len <= k < 3 * GroupCount(len) ==> raw[k] == 0
    ensures Encoded(raw, len) == Base64(raw[..len])
    ensures |Encoded(raw, len)| == 4 * GroupCount(len)
  {
    var g, pad := GroupCount(len), PadCount(len);
    assert Encoded(raw, len) == Groups(raw, g)[..4 * g - pad] + Pads(pad);
    GroupsAreQuads(raw, g);
    var m := if pad == 0 then g else g - 1;
    Samples.DivModUnique(len, 3, m, len - 3 * m);
    WholeGroupsPrefix(raw, len, m);
    if pad == 0 {
      WholeGroups(raw, g);
    } else {
      PartialGroup(raw, len, g, pad);
    }
  }

  /** The whole groups of `raw[..len]` are those of `raw`. */
  lemma WholeGroupsPrefix(raw: seq<Byte>, len: nat, m: nat)
    requires len <= |raw| && len / 3 == m
    ensures Base64(raw[..len]) == Quads(raw, m) + Tail(raw[..len][3 * m..])
  {
    var data := raw[..len];
    Base64Split(data, m);
    QuadsPrefix(data, raw, m);
  }

  lemma WholeGroups(raw: seq<Byte>, g: nat)
    requires 3 * g <= |raw|
    ensures Quads(raw, g)[..4 * g - 0] + Pads(0) == Quads(raw, g) + Tail(raw[..3 * g][3 * g..])
  {
    assert raw[..3 * g][3 * g..] == [];
  }

  lemma Base64Split(data: seq<Byte>, m: nat)
    requires |data| / 3 == m
    ensures 3 * m <= |data| < 3 * m + 3 && Base64(data) == Quads(data, m) + Tail(data[3 * m..])
  {
  }

  lemma PartialGroup(raw: seq<Byte>, len: nat, g: nat, pad: nat)
    requires 3 * g - 3 < len < 3 * g <= |raw| && pad == 3 * g - len
    requires raw[3 * g - 1] == 0 && (len == 3 * g - 2 ==> raw[3 * g - 2] == 0)
    ensures Quads(raw, g)[..4 * g - pad] + Pads(pad)
         == Quads(raw, g - 1) + Tail(raw[..len][3 * (g - 1)..])
  {
    var n := 3 * g - 3;
    var t := raw[..len][n..];
    PaddedQuad(Quads(raw, g - 1), t, raw[n], raw[n + 1]);
  }

  /** A partial last group padded with zero bits encodes to its RFC
      characters once the characters past its bytes become '='. */
  lemma PaddedQuad(head: string, t: seq<Byte>, b0: Byte, b1: Byte)
    requires 0 < |t| < 3 && t[0] == b0 && (if |t| == 2 then t[1] == b1 else b1 == 0)
    ensures (head + Quad(b0, b1, 0))[..|head| + |t| + 1] + Pads(3 - |t|) == head + Tail(t)
  {
    PrefixOfConcat(head, Quad(b0, b1, 0), |t| + 1);
  }

  lemma PrefixOfConcat<T>(a: seq<T>, b: seq<T>, k: nat)
    requires k <= |b|
    ensures (a + b)[..|a| + k] == a + b[..k]
  {
  }

  /** base64encode(raw, len, out): the encoding of the `len` bytes, then
      '\0'. */
  method Base64Encode(raw: seq<Byte>, len: nat, out: array<char>)
    requires 3 * GroupCount(len) <= |raw| && 4 * GroupCount(len) < out.Length
    modifies out
    ensures out[..4 * GroupCount(len)] == Encoded(raw, len)
    ensures out[4 * GroupCount(len)] == '\0'
    ensures forall k :: 4 * GroupCount(len) < k < out.Length ==> out[k] == old(out[k])
  {
    var o, n := EncodeGroups(raw, len, out);
    ghost var done := out[..o];
    out[o] := '\0';
    PadEnd(out, o, n, done);
  }

  /** The outer loop of base64encode: a chunk of three bytes at a time
      while `len` is positive, leaving `len` at minus the number of bytes
      read past the end. */
  method EncodeGroups(raw: seq<Byte>, len: nat, out: array<char>) returns (o: nat, n: int)
    requires 3 * GroupCount(len) <= |raw| && 4 * GroupCount(len) < out.Length
    modifies out
    ensures o == 4 * GroupCount(len) && -n == PadCount(len)
    ensures out[..o] == Groups(raw, GroupCount(len))
    ensures forall k :: o <= k < out.Length ==> out[k] == old(out[k])
  {
    n := len;
    var p := 0;
    o := 0;
    ghost var g := 0;
    ghost var done := Groups(raw, 0);
    while n > 0
      invariant p == 3 * g && o == 4 * g && n == len - p && g + GroupCount(n) == GroupCount(len)
      invariant done == Groups(raw, g)
      invariant forall k :: 0 <= k < o ==> out[k] == done[k]
      invariant forall k :: o <= k < out.Length ==> out[k] == old(out[k])
    {
      var chunk := Chunk(raw[p], raw[p + 1], raw[p + 2]);
      WriteChunk(out, o, chunk);
      done := done + ChunkChars(chunk);
      p, o, n, g := p + 3, o + 4, n - 3, g + 1;
    }
    assert out[..o] == done;
  }

  /** The last loop of base64encode: `*--out = '='` for each byte read
      past the end. */
  method PadEnd(out: array<char>, o: nat, n: int, ghost done: string)
    requires -3 < n <= 0 && o == |done| < out.Length && -n <= o && out[..o] == done
    modifies out
    ensures out[..o] == done[..o + n] + Pads(-n)
    ensures forall k :: o <= k < out.Length ==> out[k] == old(out[k])
  {
    var m, w := n, o;
    while m < 0
      invariant n <= m <= 0 && w == o + n - m
      invariant forall k :: 0 <= k < w ==> out[k] == done[k]
      invariant forall k :: w <= k < o ==> out[k] == '='
      invariant forall k :: o <= k < out.Length ==> out[k] == old(out[k])
    {
      w := w - 1;
      out[w] := '=';
      m := m + 1;
    }
    assert out[..o] == done[..o + n] + Pads(-n);
  }

  /** The inner loop: `*out++ = tbl[chunk >> i & 0x3F]` for i = 18, 12, 6
      and 0. */
  method WriteChunk(out: array<char>, o: nat, chunk: nat)
    requires o + 4 <= out.Length
    modifies out
    ensures forall k :: o <= k < o + 4 ==> out[k] == ChunkChars(chunk)[k - o]
    ensures forall k :: 0 <= k < out.Length && !(o <= k < o + 4) ==> out[k] == old(out[k])
  {
    var i := 18;
    var w := o;
    while i >= 0
      invariant o <= w <= o + 4 && i == 18 - 6 * (w - o)
      invariant forall k :: o <= k < w ==> out[k] == ChunkChars(chunk)[k - o]
      invariant forall k :: 0 <= k < out.Length && !(o <= k < w) ==> out[k] == old(out[k])
    {
      out[w] := Digit(chunk / Pow2(i) % 64);
      w := w + 1;
      i := i - 6;
    }
  }
}
