// The server core of server.c: the client registry with its seating order
// (`clients`, `clientsOrdered`), the acceptance rules of the UDP receiver,
// the mix-minus-self rule of the main tick, the metronome settings keys and
// the splitting of a metronome beat into stereo blocks.

module Server {
  import opened Wrappers
  import opened Samples
  import AudioBuffer

  /** MAX_CLIENTS: number of slots of `clients` and `clientsOrdered`. */
  const MaxClients: nat := 100

  /** PROT_VERSION: the protocol version a helo must carry. */
  const ProtVersion: int := 1

  /** A socket address as its bytes; `netAddrsEqual` is a byte comparison,
      so two addresses are equal exactly when their byte sequences are. */
  type Addr = seq<int>

  /** The registry's view of a `struct client`. */
  datatype Client = Client(connected: bool, addr: Addr, lastKeyPress: nat)

  /** `clients[]`: `None` is NULL, a slot never allocated. */
  type Clients = seq<Option<Client>>

  /** Slot `k` holds a connected client (what `getClient` accepts). */
  predicate Connected(cs: Clients, k: int)
  {
    0 <= k < |cs| && cs[k].Some? && cs[k].value.connected
  }

  // ----------------------------------------------------------- seating

  /** `clientsOrdered[]` as slot ids: a client's id is its slot index, so a
      reference to a client is modelled by that index and NULL by -1. */
  predicate SlotRefs(cs: Clients, ord: seq<int>)
  {
    forall j :: 0 <= j < |ord| ==> -1 <= ord[j] < |cs|
  }

  /** Entry `j` of the seating order is a connected client: one that
      `FOR_CLIENTS_ORDERED` visits. */
  predicate Seated(cs: Clients, ord: seq<int>, j: int)
  {
    0 <= j < |ord| && Connected(cs, ord[j])
  }

  /** What the registry keeps between packets: both tables have MAX_CLIENTS
      entries, no connected client is seated twice and every connected
      client is seated. */
  ghost predicate Consistent(cs: Clients, ord: seq<int>)
  {
    && |cs| == MaxClients
    && |ord| == MaxClients
    && SlotRefs(cs, ord)
    && (forall a, b :: Seated(cs, ord, a) && Seated(cs, ord, b) && ord[a] == ord[b] ==> a == b)
    && (forall k :: Connected(cs, k) ==> k in ord)
  }

  /** The lowest slot from `i` on that is empty or holds a disconnected client. */
  function FreeSlot(cs: Clients, i: nat): (r: Option<nat>)
    decreases |cs| - i
    ensures r.Some? ==> i <= r.value < |cs| && !Connected(cs, r.value)
    ensures r.Some? ==> forall k :: i <= k < r.value ==> Connected(cs, k)
    ensures r.None? <==> forall k :: i <= k < |cs| ==> Connected(cs, k)
  {
    if i >= |cs| then None
    else if !Connected(cs, i) then Some(i)
    else FreeSlot(cs, i + 1)
  }

  /** The connected entries of `ord` other than `c`, in their order. */
  function Others(cs: Clients, ord: seq<int>, c: int): (r: seq<int>)
    ensures |r| <= |ord|
  {
    if ord == [] then []
    else
      var r0 := Others(cs, ord[..|ord| - 1], c);
      var e := ord[|ord| - 1];
      if Connected(cs, e) && e != c then r0 + [e] else r0
  }

  /** One more entry of `ord` considered. */
  lemma OthersSnoc(cs: Clients, ord: seq<int>, j: nat, c: int)
    requires j < |ord|
    ensures Others(cs, ord[..j + 1], c) ==
      Others(cs, ord[..j], c) + (if Connected(cs, ord[j]) && ord[j] != c then [ord[j]] else [])
  {
    assert ord[..j + 1][..j] == ord[..j];
  }

  /** `Others` keeps exactly the connected entries other than `c`. */
  lemma {:induction false} OthersMembers(cs: Clients, ord: seq<int>, c: int)
    ensures forall x <- Others(cs, ord, c) :: Connected(cs, x) && x != c && x in ord
    ensures forall j :: 0 <= j < |ord| && Connected(cs, ord[j]) && ord[j] != c ==> ord[j] in Others(cs, ord, c)
  {
    if ord != [] {
      var pre := ord[..|ord| - 1];
      OthersMembers(cs, pre, c);
      assert forall x <- pre :: x in ord;
      forall j | 0 <= j < |ord| - 1
        ensures ord[j] == pre[j]
      {
      }
    }
  }

  lemma FreeSlotIs(cs: Clients, i: nat)
    requires i < |cs| && !Connected(cs, i) && forall k :: 0 <= k < i ==> Connected(cs, k)
    ensures FreeSlot(cs, 0) == Some(i)
  {
  }

  /** `Others` does not look at the slot of `c` itself. */
  lemma {:induction false} OthersIgnore(cs: Clients, ord: seq<int>, c: nat, cl: Option<Client>)
    requires c < |cs|
    ensures Others(cs[c := cl], ord, c) == Others(cs, ord, c)
  {
    if ord != [] {
      OthersIgnore(cs, ord[..|ord| - 1], c, cl);
      var e := ord[|ord| - 1];
      assert e != c ==> (Connected(cs[c := cl], e) <==> Connected(cs, e));
    }
  }

  /** `n` NULL entries. */
  function Nulls(n: nat): (r: seq<int>)
    ensures |r| == n && forall j :: 0 <= j < n ==> r[j] == -1
  {
    seq(n, _ => -1)
  }

  /** The seating order after `newClient` hands out slot `c`: the other
      connected clients in their previous order, then `c`, then NULLs. */
  function Reseated(cs: Clients, ord: seq<int>, c: nat): (r: seq<int>)
  {
    var front := Others(cs, ord, c) + [c];
    if |front| < |ord| then front + Nulls(|ord| - |front|) else front
  }

  /** The distinct seated entries fit below MAX_CLIENTS with `c` left out,
      so the compaction loop of `newClient` always has room for `c`. */
  lemma OthersFit(cs: Clients, ord: seq<int>, c: nat)
    requires Consistent(cs, ord) && c < |cs| && !Connected(cs, c)
    ensures |Others(cs, ord, c)| < |ord|
    ensures Distinct(Others(cs, ord, c))
  {
    OthersDistinct(cs, ord, c);
    OthersMembers(cs, ord, c);
    var o := Others(cs, ord, c);
    assert Distinct(o + [c]);
    Pigeonhole(o + [c], |cs|);
  }

  ghost predicate Distinct(xs: seq<int>)
  {
    forall a, b :: 0 <= a < b < |xs| ==> xs[a] != xs[b]
  }

  lemma {:induction false} OthersDistinct(cs: Clients, ord: seq<int>, c: int)
    requires forall a, b :: Seated(cs, ord, a) && Seated(cs, ord, b) && ord[a] == ord[b] ==> a == b
    ensures Distinct(Others(cs, ord, c))
  {
    if ord != [] {
      var pre := ord[..|ord| - 1];
      assert forall a, b :: Seated(cs, pre, a) && Seated(cs, pre, b) && pre[a] == pre[b] ==> a == b by {
        forall a, b | Seated(cs, pre, a) && Seated(cs, pre, b) && pre[a] == pre[b]
          ensures a == b
        {
          assert Seated(cs, ord, a) && Seated(cs, ord, b);
        }
      }
      OthersDistinct(cs, pre, c);
      OthersMembers(cs, pre, c);
      var e := ord[|ord| - 1];
      if Connected(cs, e) && e != c {
        var r0 := Others(cs, pre, c);
        assert e !in r0;
      }
    }
  }

  /** `xs` without the value `v`. */
  ghost function Drop(xs: seq<int>, v: int): (r: seq<int>)
    ensures forall x <- r :: x in xs && x != v
    ensures v !in xs ==> |r| == |xs|
    ensures Distinct(xs) ==> Distinct(r) && |r| + 1 >= |xs|
  {
    if xs == [] then []
    else
      var pre := xs[..|xs| - 1];
      var e := xs[|xs| - 1];
      assert forall x <- pre :: x in xs;
      assert Distinct(xs) ==> Distinct(pre) && e !in pre;
      if e == v then Drop(pre, v) else Drop(pre, v) + [e]
  }

  /** Distinct values below `n` are at most `n` many. */
  lemma {:induction false} Pigeonhole(xs: seq<int>, n: nat)
    requires Distinct(xs) && forall x <- xs :: 0 <= x < n
    ensures |xs| <= n
    decreases n
  {
    if xs != [] {
      assert xs[0] in xs;
      var ys := Drop(xs, n - 1);
      Pigeonhole(ys, n - 1);
    }
  }

  /** After the seating is recomputed for a fresh slot `c`, the registry is
      consistent again, and once `c` connects it is still consistent. */
  lemma ReseatedConsistent(cs: Clients, ord: seq<int>, c: nat, cl: Option<Client>)
    requires Consistent(cs, ord) && c < |cs| && !Connected(cs, c)
    ensures Consistent(cs[c := cl], Reseated(cs, ord, c))
    ensures SlotRefs(cs[c := cl], ord)
    ensures |Others(cs[c := cl], ord, c)| < |ord|
    ensures Reseated(cs[c := cl], ord, c) == Reseated(cs, ord, c)
  {
    OthersIgnore(cs, ord, c, cl);
    OthersFit(cs, ord, c);
    ReseatedShape(cs, ord, c);
    var o := Others(cs, ord, c);
    var r := Reseated(cs, ord, c);
    var cs' := cs[c := cl];
    assert forall k :: Connected(cs', k) && k != c ==> Connected(cs, k);
    forall a, b | Seated(cs', r, a) && Seated(cs', r, b) && r[a] == r[b]
      ensures a == b
    {
      if a < |o| && b < |o| {
        assert o[a] == o[b];
      }
    }
    forall k | Connected(cs', k)
      ensures k in r
    {
      if k == c {
        assert r[|o|] == k;
      } else {
        OthersMembers(cs, ord, c);
        assert Connected(cs, k) && k in ord;
        var j :| 0 <= j < |ord| && ord[j] == k;
        assert k in o;
        var i :| 0 <= i < |o| && o[i] == k;
        assert r[i] == k;
      }
    }
  }

  /** The entries of the new seating order, position by position. */
  lemma ReseatedShape(cs: Clients, ord: seq<int>, c: nat)
    requires |cs| == |ord| && c < |cs| && |Others(cs, ord, c)| < |ord|
    ensures var o := Others(cs, ord, c); var r := Reseated(cs, ord, c);
      && |r| == |ord|
      && (forall j :: 0 <= j < |o| ==> r[j] == o[j] && 0 <= o[j] < |cs| && o[j] != c && Connected(cs, o[j]))
      && r[|o|] == c
      && (forall j :: |o| < j < |r| ==> r[j] == -1)
      && SlotRefs(cs, r)
  {
    var o := Others(cs, ord, c);
    OthersMembers(cs, ord, c);
    forall j | 0 <= j < |o|
      ensures 0 <= o[j] < |cs| && o[j] != c && Connected(cs, o[j])
    {
      assert o[j] in o;
    }
  }

  /** The slot `newClient` hands out: the lowest free one, unless it was
      never allocated and the allocation fails. */
  function Handout(cs: Clients, mallocOk: bool): (r: Option<nat>)
    ensures r.Some? ==> r == FreeSlot(cs, 0)
    ensures r.None? <==> FreeSlot(cs, 0).None? || (cs[FreeSlot(cs, 0).value].None? && !mallocOk)
  {
    match FreeSlot(cs, 0)
    case None => None
    case Some(k) => if cs[k].None? && !mallocOk then None else Some(k)
  }

  /** The client a slot holds once `newClient` has picked it: a reused
      disconnected client keeps its fields; a freshly allocated one is not
      connected, and its other fields stay unset until the helo fills them. */
  function Allocated(cl: Option<Client>): Client
  {
    if cl.Some? then cl.value else Client(false, [], 0)
  }

  // ------------------------------------------------------ moving a seat

  /** Swap entries `i` and `j`. */
  function Swap(ord: seq<int>, i: nat, j: nat): (r: seq<int>)
    requires i < |ord| && j < |ord|
    ensures |r| == |ord| && r[i] == ord[j] && r[j] == ord[i]
    ensures forall k :: 0 <= k < |ord| && k != i && k != j ==> r[k] == ord[k]
  {
    ord[i := ord[j]][j := ord[i]]
  }

  /** The first seated entry from `j` on that is client `c`. */
  function SeatOf(cs: Clients, ord: seq<int>, c: int, j: nat): (r: Option<nat>)
    decreases |ord| - j
    ensures r.Some? ==> j <= r.value < |ord| && Seated(cs, ord, r.value) && ord[r.value] == c
    ensures r.Some? ==> forall k :: j <= k < r.value ==> !(Seated(cs, ord, k) && ord[k] == c)
    ensures r.None? <==> forall k :: j <= k < |ord| ==> !(Seated(cs, ord, k) && ord[k] == c)
  {
    if j >= |ord| then None
    else if Seated(cs, ord, j) && ord[j] == c then Some(j)
    else SeatOf(cs, ord, c, j + 1)
  }

  /** The first seated entry from `j` on. */
  function NextSeat(cs: Clients, ord: seq<int>, j: nat): (r: Option<nat>)
    decreases |ord| - j
    ensures r.Some? ==> j <= r.value < |ord| && Seated(cs, ord, r.value)
    ensures r.Some? ==> forall k :: j <= k < r.value ==> !Seated(cs, ord, k)
    ensures r.None? <==> forall k :: j <= k < |ord| ==> !Seated(cs, ord, k)
  {
    if j >= |ord| then None
    else if Seated(cs, ord, j) then Some(j)
    else NextSeat(cs, ord, j + 1)
  }

  /** The last seated entry before `j`, or -1. */
  function SeatBefore(cs: Clients, ord: seq<int>, j: nat): (r: int)
    requires j <= |ord|
    ensures -1 <= r < j
    ensures r >= 0 ==> Seated(cs, ord, r)
    ensures forall k :: r < k < j ==> !Seated(cs, ord, k)
  {
    if j == 0 then -1
    else if Seated(cs, ord, j - 1) then j - 1
    else SeatBefore(cs, ord, j - 1)
  }

  /** `clientMoveUp(c)`: `c` trades places with the nearest earlier seated
      entry; nothing changes when there is none or `c` is not seated. */
  function MovedUp(cs: Clients, ord: seq<int>, c: int): (r: seq<int>)
    ensures |r| == |ord|
  {
    match SeatOf(cs, ord, c, 0)
    case None => ord
    case Some(j) =>
      var i := SeatBefore(cs, ord, j);
      if i >= 0 then Swap(ord, i, j) else ord
  }

  /** `clientMoveDown(c)`: `c` trades places with the nearest later seated
      entry; nothing changes when there is none or `c` is not seated. */
  function MovedDown(cs: Clients, ord: seq<int>, c: int): (r: seq<int>)
    ensures |r| == |ord|
  {
    match SeatOf(cs, ord, c, 0)
    case None => ord
    case Some(i) =>
      match NextSeat(cs, ord, i + 1)
      case None => ord
      case Some(j) => Swap(ord, i, j)
  }

  /** Exchanging two seated entries keeps the registry consistent. */
  lemma SwapConsistent(cs: Clients, ord: seq<int>, i: nat, j: nat)
    requires Consistent(cs, ord) && Seated(cs, ord, i) && Seated(cs, ord, j)
    ensures Consistent(cs, Swap(ord, i, j))
    ensures forall k :: Seated(cs, Swap(ord, i, j), k) <==> Seated(cs, ord, k)
  {
    var r := Swap(ord, i, j);
    assert forall k :: 0 <= k < |ord| ==> r[k] == ord[if k == i then j else if k == j then i else k];
    forall a, b | Seated(cs, r, a) && Seated(cs, r, b) && r[a] == r[b]
      ensures a == b
    {
      var a' := if a == i then j else if a == j then i else a;
      var b' := if b == i then j else if b == j then i else b;
      assert Seated(cs, ord, a') && Seated(cs, ord, b');
    }
    forall k | Connected(cs, k)
      ensures k in r
    {
      var p :| 0 <= p < |ord| && ord[p] == k;
      var p' := if p == i then j else if p == j then i else p;
      assert r[p'] == k;
    }
  }

  /** Moving up keeps the registry consistent. */
  lemma MovedUpConsistent(cs: Clients, ord: seq<int>, c: int)
    requires Consistent(cs, ord)
    ensures Consistent(cs, MovedUp(cs, ord, c))
  {
    var s := SeatOf(cs, ord, c, 0);
    if s.Some? {
      var i := SeatBefore(cs, ord, s.value);
      if i >= 0 {
        SwapConsistent(cs, ord, i, s.value);
        assert MovedUp(cs, ord, c) == Swap(ord, i, s.value);
      }
    }
  }

  /** Moving down keeps the registry consistent. */
  lemma MovedDownConsistent(cs: Clients, ord: seq<int>, c: int)
    requires Consistent(cs, ord)
    ensures Consistent(cs, MovedDown(cs, ord, c))
  {
    var s := SeatOf(cs, ord, c, 0);
    if s.Some? {
      var n := NextSeat(cs, ord, s.value + 1);
      if n.Some? {
        SwapConsistent(cs, ord, s.value, n.value);
        assert MovedDown(cs, ord, c) == Swap(ord, s.value, n.value);
      }
    }
  }

  /** Moving a client up and then down again restores the seating order,
      provided it had someone seated before it. */
  lemma {:induction false} UpThenDown(cs: Clients, ord: seq<int>, c: int)
    requires SeatOf(cs, ord, c, 0).Some? && SeatBefore(cs, ord, SeatOf(cs, ord, c, 0).value) >= 0
    ensures MovedDown(cs, MovedUp(cs, ord, c), c) == ord
  {
    var j := SeatOf(cs, ord, c, 0).value;
    var i := SeatBefore(cs, ord, j);
    var up := Swap(ord, i, j);
    assert MovedUp(cs, ord, c) == up;
    forall k | 0 <= k < i
      ensures !(Seated(cs, up, k) && up[k] == c)
    {
      assert up[k] == ord[k];
      assert !(Seated(cs, ord, k) && ord[k] == c);
    }
    SeatOfIs(cs, up, c, i);
    forall k | i < k < j
      ensures !Seated(cs, up, k)
    {
      assert up[k] == ord[k];
      assert !Seated(cs, ord, k);
    }
    NextSeatIs(cs, up, i, j);
    assert Swap(up, i, j) == ord;
  }

  /** Moving a client down and then up again restores the seating order,
      provided it had someone seated after it and is seated only once. */
  lemma {:induction false} DownThenUp(cs: Clients, ord: seq<int>, c: int)
    requires forall a, b :: Seated(cs, ord, a) && Seated(cs, ord, b) && ord[a] == ord[b] ==> a == b
    requires SeatOf(cs, ord, c, 0).Some? && NextSeat(cs, ord, SeatOf(cs, ord, c, 0).value + 1).Some?
    ensures MovedUp(cs, MovedDown(cs, ord, c), c) == ord
  {
    var i := SeatOf(cs, ord, c, 0).value;
    var j := NextSeat(cs, ord, i + 1).value;
    var down := Swap(ord, i, j);
    assert MovedDown(cs, ord, c) == down;
    assert ord[j] != c by {
      assert Seated(cs, ord, i) && Seated(cs, ord, j) && i != j;
    }
    forall k | 0 <= k < j
      ensures !(Seated(cs, down, k) && down[k] == c)
    {
      if k < i {
        assert down[k] == ord[k];
        assert !(Seated(cs, ord, k) && ord[k] == c);
      } else if k > i {
        assert down[k] == ord[k];
        assert !Seated(cs, ord, k);
      }
    }
    SeatOfIs(cs, down, c, j);
    forall k | i < k < j
      ensures !Seated(cs, down, k)
    {
      assert down[k] == ord[k];
      assert !Seated(cs, ord, k);
    }
    SeatBeforeIs(cs, down, i, j);
    assert Swap(down, i, j) == ord;
  }

  lemma SeatOfIs(cs: Clients, ord: seq<int>, c: int, j: nat)
    requires Seated(cs, ord, j) && ord[j] == c
    requires forall k :: 0 <= k < j ==> !(Seated(cs, ord, k) && ord[k] == c)
    ensures SeatOf(cs, ord, c, 0) == Some(j)
  {
  }

  lemma NextSeatIs(cs: Clients, ord: seq<int>, i: nat, j: nat)
    requires i < j && Seated(cs, ord, j)
    requires forall k :: i < k < j ==> !Seated(cs, ord, k)
    ensures NextSeat(cs, ord, i + 1) == Some(j)
  {
  }

  lemma SeatBeforeIs(cs: Clients, ord: seq<int>, i: nat, j: nat)
    requires i < j <= |ord| && Seated(cs, ord, i)
    requires forall k :: i < k < j ==> !Seated(cs, ord, k)
    ensures SeatBefore(cs, ord, j) == i
  {
  }

  // ------------------------------------------------ packet acceptance

  /** `getClient(id)`, with the slot bound the packet handlers rely on: the
      connected client of slot `id`, if there is one. */
  function GetClient(cs: Clients, id: nat): (r: Option<Client>)
    ensures r.Some? <==> Connected(cs, id)
    ensures r.Some? ==> cs[id] == r
  {
    if id < |cs| && cs[id].Some? && cs[id].value.connected then cs[id] else None
  }

  /** `getClient(id)` as written: `clients[id]` is read without a bound, so
      for `id >= MAX_CLIENTS` the value comes from whatever word lies past the
      table, here `beyond`. */
  function GetClientAsWritten(cs: Clients, id: nat, beyond: Option<Client>): (r: Option<Client>)
    ensures id < |cs| ==> r == GetClient(cs, id)
    ensures id >= |cs| ==> r == (if beyond.Some? && beyond.value.connected then beyond else None)
  {
    var slot := if id < |cs| then cs[id] else beyond;
    if slot.Some? && slot.value.connected then slot else None
  }

  /** The test `udpReceiver` applies to a `PACKET_DATA` of `size` bytes from
      `from`; `dataSize` is `sizeof(struct packetClientData)`. */
  predicate DataAccepted(cs: Clients, dataSize: nat, size: int, id: nat, from: Addr)
  {
    var cl := GetClient(cs, id);
    size == dataSize && cl.Some? && cl.value.addr == from
  }

  /** The same test with the unbounded `getClient`. */
  predicate DataAcceptedAsWritten(cs: Clients, dataSize: nat, size: int, id: nat, from: Addr,
                                  beyond: Option<Client>)
  {
    var cl := GetClientAsWritten(cs, id, beyond);
    size == dataSize && cl.Some? && cl.value.addr == from
  }

  /** The test for a `PACKET_KEY_PRESS`; `keySize` is `sizeof(struct packetKeyPress)`.
      A key press also has to be newer than the last one taken from that client. */
  predicate KeyAccepted(cs: Clients, keySize: nat, size: int, id: nat, from: Addr, playBlockIndex: nat)
  {
    var cl := GetClient(cs, id);
    size == keySize && cl.Some? && cl.value.addr == from && !(cl.value.lastKeyPress >= playBlockIndex)
  }

  /** A data packet gets through exactly when its size is exact, its id names
      a connected client and it comes from that client's address. */
  lemma DataAcceptance(cs: Clients, dataSize: nat, size: int, id: nat, from: Addr)
    ensures DataAccepted(cs, dataSize, size, id, from) <==>
      size == dataSize && Connected(cs, id) && cs[id].value.addr == from
  {
  }

  /** A key press gets through exactly when a data packet with the same
      header would and its index is above the client's last accepted one. */
  lemma KeyAcceptance(cs: Clients, keySize: nat, size: int, id: nat, from: Addr, playBlockIndex: nat)
    ensures KeyAccepted(cs, keySize, size, id, from, playBlockIndex) <==>
      DataAccepted(cs, keySize, size, id, from) && cs[id].value.lastKeyPress < playBlockIndex
  {
  }

  /** Once a key press with index `b` is taken, no press with index `<= b`
      from that client is taken again, and any later one is. */
  lemma KeyReplayRefused(cs: Clients, keySize: nat, id: nat, from: Addr, b: nat, b2: nat)
    requires KeyAccepted(cs, keySize, keySize, id, from, b)
    ensures var cs2 := cs[id := Some(cs[id].value.(lastKeyPress := b))];
      KeyAccepted(cs2, keySize, keySize, id, from, b2) <==> b < b2
  {
  }

  /** With the unbounded lookup, a data packet whose id is past the table is
      taken whenever the word past the table looks like a connected client
      with the sender's address. */
  lemma DataOverrunAccepted(cs: Clients, dataSize: nat, from: Addr)
    requires |cs| == MaxClients
    ensures var id := 200;
      id < 256 && !Connected(cs, id) &&
      DataAcceptedAsWritten(cs, dataSize, dataSize, id, from, Some(Client(true, from, 0))) &&
      !DataAccepted(cs, dataSize, dataSize, id, from)
  {
  }

  /** "`from` is some connected client's address": the duplicate test of a helo. */
  ghost predicate AddrInUse(cs: Clients, from: Addr)
  {
    exists k :: Connected(cs, k) && cs[k].value.addr == from
  }

  // -------------------------------------------------------- the registry

  /** The two global tables, rewritten in place. */
  class Registry {
    const clients: array<Option<Client>>
    const ordered: array<int>

    ghost predicate Valid()
      reads clients, ordered
    {
      Consistent(clients[..], ordered[..])
    }

    /** The zero-initialised tables: every slot and every seat NULL. */
    constructor ()
      ensures Valid() && fresh(clients) && fresh(ordered)
      ensures forall k :: 0 <= k < MaxClients ==> clients[k].None? && ordered[k] == -1
    {
      clients := new Option<Client>[MaxClients](_ => None);
      ordered := new int[MaxClients](_ => -1);
      new;
      assert forall k :: 0 <= k < MaxClients ==> clients[..][k].None? && ordered[..][k] == -1;
    }

    /** `newClient()`: the slot handed out (the client's id), or `None` for
        NULL.  `mallocOk` stands for the outcome of the allocation of a slot
        never used before. */
    method NewClient(mallocOk: bool) returns (c: Option<nat>)
      requires Valid()
      modifies clients, ordered
      ensures Valid()
      ensures c == Handout(old(clients[..]), mallocOk)
      ensures c.None? ==> clients[..] == old(clients[..]) && ordered[..] == old(ordered[..])
      ensures c.Some? ==> clients[..] == old(clients[..])[c.value := Some(Allocated(old(clients[c.value])))]
      ensures c.Some? ==> ordered[..] == Reseated(old(clients[..]), old(ordered[..]), c.value)
    {
      ghost var cs0 := clients[..];
      ghost var ord0 := ordered[..];
      c := PickSlot(mallocOk);
      if c.Some? {
        ReseatedConsistent(cs0, ord0, c.value, Some(Allocated(cs0[c.value])));
        Compact(c.value);
      }
    }

    /** The slot-search loop of `newClient`, with the allocation of a slot
        never used before. */
    method PickSlot(mallocOk: bool) returns (c: Option<nat>)
      requires clients.Length == MaxClients
      modifies clients
      ensures c == Handout(old(clients[..]), mallocOk)
      ensures c.None? ==> clients[..] == old(clients[..])
      ensures c.Some? ==> clients[..] == old(clients[..])[c.value := Some(Allocated(old(clients[c.value])))]
    {
      ghost var cs0 := clients[..];
      var i := 0;
      while i < MaxClients
        invariant 0 <= i <= MaxClients
        invariant forall k :: 0 <= k < i ==> Connected(cs0, k)
        invariant clients[..] == cs0
      {
        assert cs0[i] == clients[i];
        if clients[i].None? {
          FreeSlotIs(cs0, i);
          if !mallocOk {
            return None;
          }
          clients[i] := Some(Client(false, [], 0));
          return Some(i);
        } else if !clients[i].value.connected {
          FreeSlotIs(cs0, i);
          return Some(i);
        }
        i := i + 1;
      }
      return None;
    }

    /** The compaction of `clientsOrdered` for the handed-out slot `c`. */
    method Compact(c: nat)
      requires clients.Length == MaxClients && ordered.Length == MaxClients && c < MaxClients
      requires SlotRefs(clients[..], ordered[..])
      requires |Others(clients[..], ordered[..], c)| < MaxClients
      modifies ordered
      ensures ordered[..] == Reseated(clients[..], old(ordered[..]), c)
    {
      ghost var o := Others(clients[..], ordered[..], c);
      var i := KeepOthers(c);
      ordered[i] := c;
      assert ordered[..i + 1] == o + [c];
      PadNulls(i + 1, o + [c]);
    }

    /** The first loop of the compaction: the connected entries other than
        `c` slide to the front, in order; `i` counts them. */
    method KeepOthers(c: nat) returns (i: nat)
      requires clients.Length == MaxClients && ordered.Length == MaxClients
      requires SlotRefs(clients[..], ordered[..])
      modifies ordered
      ensures i == |Others(clients[..], old(ordered[..]), c)|
      ensures ordered[..i] == Others(clients[..], old(ordered[..]), c)
    {
      ghost var cs := clients[..];
      ghost var ord0 := ordered[..];
      i := 0;
      var j := 0;
      while j < MaxClients
        invariant 0 <= i <= j <= MaxClients
        invariant ordered[..i] == Others(cs, ord0[..j], c)
        invariant forall t :: j <= t < MaxClients ==> ordered[t] == ord0[t]
      {
        var e := ordered[j];
        assert e == ord0[j] && -1 <= e < MaxClients;
        var keep := e >= 0 && clients[e].Some? && clients[e].value.connected && e != c;
        assert keep == (Connected(cs, e) && e != c) by {
          assert e >= 0 ==> cs[e] == clients[e];
        }
        OthersSnoc(cs, ord0, j, c);
        if keep {
          if i < j {
            ordered[i] := e;
          }
          assert ordered[..i + 1] == ordered[..i] + [e];
          i := i + 1;
        }
        j := j + 1;
      }
      assert ord0[..MaxClients] == ord0;
    }

    /** The closing loop of the compaction: NULLs from `i` to the end. */
    method PadNulls(i0: nat, ghost front: seq<int>)
      requires ordered.Length == MaxClients && |front| == i0 <= MaxClients
      requires ordered[..i0] == front
      modifies ordered
      ensures ordered[..] == front + Nulls(MaxClients - i0)
    {
      var i := i0;
      while i < MaxClients
        invariant i0 <= i <= MaxClients
        invariant ordered[..i] == front + Nulls(i - i0)
      {
        ordered[i] := -1;
        assert ordered[..i + 1] == front + Nulls(i + 1 - i0);
        i := i + 1;
      }
      assert ordered[..] == ordered[..MaxClients];
    }

    /** The registry part of a `PACKET_HELO`: refused unless the protocol
        version matches, the address is new and `newClient` finds a slot;
        then the client gets the address, a zero `lastKeyPress` and is
        connected.  The result is the new client's id. */
    method Helo(version: int, from: Addr, mallocOk: bool) returns (c: Option<nat>)
      requires Valid()
      modifies clients, ordered
      ensures Valid()
      ensures c.Some? <==> version == ProtVersion && !AddrInUse(old(clients[..]), from)
                           && Handout(old(clients[..]), mallocOk).Some?
      ensures c.None? ==> clients[..] == old(clients[..]) && ordered[..] == old(ordered[..])
      ensures c.Some? ==> c == Handout(old(clients[..]), mallocOk)
      ensures c.Some? ==> clients[..] == old(clients[..])[c.value := Some(Client(true, from, 0))]
      ensures c.Some? ==> ordered[..] == Reseated(old(clients[..]), old(ordered[..]), c.value)
    {
      if version != ProtVersion {
        return None;
      }
      var dup := FindAddr(from);
      if dup {
        return None;
      }
      ghost var cs0 := clients[..];
      ghost var ord0 := ordered[..];
      c := NewClient(mallocOk);
      if c.Some? {
        clients[c.value] := Some(Client(true, from, 0));
        assert clients[..] == cs0[c.value := Some(Client(true, from, 0))];
        ReseatedConsistent(cs0, ord0, c.value, Some(Client(true, from, 0)));
      }
    }

    /** The duplicate-address loop over the connected clients. */
    method FindAddr(from: Addr) returns (dup: bool)
      requires clients.Length == MaxClients
      ensures dup <==> AddrInUse(clients[..], from)
    {
      var k := 0;
      while k < MaxClients
        invariant 0 <= k <= MaxClients
        invariant forall m :: 0 <= m < k ==> !(Connected(clients[..], m) && clients[m].value.addr == from)
      {
        if clients[k].Some? && clients[k].value.connected && clients[k].value.addr == from {
          return true;
        }
        k := k + 1;
      }
      return false;
    }

    /** `clientMoveUp(c)`. */
    method MoveUp(c: nat)
      requires Valid()
      modifies ordered
      ensures Valid()
      ensures ordered[..] == MovedUp(clients[..], old(ordered[..]), c)
    {
      MovedUpConsistent(clients[..], ordered[..], c);
      SwapUp(c);
    }

    /** The loop of `clientMoveUp`. */
    method SwapUp(c: nat)
      requires clients.Length == MaxClients && ordered.Length == MaxClients
      requires SlotRefs(clients[..], ordered[..])
      modifies ordered
      ensures ordered[..] == MovedUp(clients[..], old(ordered[..]), c)
    {
      ghost var ord0 := ordered[..];
      var i := -1;
      var j := 0;
      while j < MaxClients
        invariant 0 <= j <= MaxClients
        invariant ordered[..] == ord0
        invariant i == SeatBefore(clients[..], ord0, j)
        invariant forall k :: 0 <= k < j ==> !(Seated(clients[..], ord0, k) && ord0[k] == c)
      {
        var e := ordered[j];
        if e >= 0 && clients[e].Some? && clients[e].value.connected {
          if e == c {
            assert SeatOf(clients[..], ord0, c, 0) == Some(j);
            if i >= 0 {
              ordered[j] := ordered[i];
              ordered[i] := c;
              assert ordered[..] == Swap(ord0, i, j);
            }
            return;
          }
          i := j;
        }
        j := j + 1;
      }
    }

    /** `clientMoveDown(c)`. */
    method MoveDown(c: nat)
      requires Valid()
      modifies ordered
      ensures Valid()
      ensures ordered[..] == MovedDown(clients[..], old(ordered[..]), c)
    {
      MovedDownConsistent(clients[..], ordered[..], c);
      SwapDown(c);
    }

    /** The loop of `clientMoveDown`. */
    method SwapDown(c: nat)
      requires clients.Length == MaxClients && ordered.Length == MaxClients
      requires SlotRefs(clients[..], ordered[..])
      modifies ordered
      ensures ordered[..] == MovedDown(clients[..], old(ordered[..]), c)
    {
      ghost var ord0 := ordered[..];
      var i := -1;
      var j := 0;
      while j < MaxClients
        invariant 0 <= j <= MaxClients
        invariant ordered[..] == ord0
        invariant i < 0 ==> forall k :: 0 <= k < j ==> !(Seated(clients[..], ord0, k) && ord0[k] == c)
        invariant i >= 0 ==> i < j && SeatOf(clients[..], ord0, c, 0) == Some(i)
        invariant i >= 0 ==> forall k :: i < k < j ==> !Seated(clients[..], ord0, k)
      {
        var e := ordered[j];
        if e >= 0 && clients[e].Some? && clients[e].value.connected {
          if i >= 0 {
            assert clients[..][e] == clients[e] && Seated(clients[..], ord0, j);
            NextSeatIs(clients[..], ord0, i, j);
            ordered[i] := e;
            ordered[j] := c;
            assert ordered[..] == Swap(ord0, i, j);
            return;
          } else if e == c {
            i := j;
          }
        }
        j := j + 1;
      }
    }

    /** A `PACKET_KEY_PRESS` from `from`: if the acceptance test passes, the
        client's `lastKeyPress` becomes the packet's index, then 'u' and 'd'
        move the client in the seating order and every other key goes to the
        metronome. */
    method KeyPress(keySize: nat, size: int, id: nat, from: Addr, playBlockIndex: nat, key: char,
                    m: Metronome) returns (accepted: bool)
      requires Valid() && m.Valid()
      modifies clients, ordered, m
      ensures Valid() && m.Valid()
      ensures accepted == KeyAccepted(old(clients[..]), keySize, size, id, from, playBlockIndex)
      ensures !accepted ==> clients[..] == old(clients[..]) && ordered[..] == old(ordered[..])
                            && m.Settings() == old(m.Settings())
      ensures accepted ==>
        clients[..] == old(clients[..])[id := Some(old(clients[id]).value.(lastKeyPress := playBlockIndex))]
      ensures accepted && key == 'u' ==> ordered[..] == MovedUp(clients[..], old(ordered[..]), id)
      ensures accepted && key == 'd' ==> ordered[..] == MovedDown(clients[..], old(ordered[..]), id)
      ensures accepted && key != 'u' && key != 'd' ==>
        ordered[..] == old(ordered[..]) && m.Settings() == SettingsKey(m.lim, old(m.Settings()), key)
      ensures key == 'u' || key == 'd' ==> m.Settings() == old(m.Settings())
    {
      if !(size == keySize && id < MaxClients && clients[id].Some? && clients[id].value.connected
           && clients[id].value.addr == from && !(clients[id].value.lastKeyPress >= playBlockIndex)) {
        return false;
      }
      Touch(id, playBlockIndex);
      if key == 'u' {
        MoveUp(id);
      } else if key == 'd' {
        MoveDown(id);
      } else {
        m.Key(key);
      }
      return true;
    }

    /** `client->lastKeyPress = packet->playBlockIndex`. */
    method Touch(id: nat, playBlockIndex: nat)
      requires Valid() && id < MaxClients && clients[id].Some?
      modifies clients
      ensures Valid() && ordered[..] == old(ordered[..])
      ensures clients[..] == old(clients[..])[id := Some(old(clients[id]).value.(lastKeyPress := playBlockIndex))]
    {
      ghost var cs0 := clients[..];
      clients[id] := Some(clients[id].value.(lastKeyPress := playBlockIndex));
      assert forall k :: Connected(clients[..], k) <==> Connected(cs0, k);
      assert forall j :: Seated(clients[..], ordered[..], j) <==> Seated(cs0, ordered[..], j);
    }

    /** The first mixing loop of the main tick: `mixedBlock` accumulates, in
        16-bit arithmetic, the panned block of every connected client;
        `blocks[k]` is the panned block of slot `k`. */
    method Mix(blocks: seq<seq<int>>, w: nat) returns (mixed: seq<int>)
      requires clients.Length == MaxClients && |blocks| == MaxClients && Widths(blocks, w)
      ensures |mixed| == w
      ensures forall i :: 0 <= i < w ==> mixed[i] == Wrap16(MixSum(clients[..], blocks, i, MaxClients, -1))
    {
      ghost var cs := clients[..];
      var acc := new int[w](_ => 0);
      var k := 0;
      while k < MaxClients
        invariant 0 <= k <= MaxClients
        invariant forall i :: 0 <= i < w ==> acc[i] == Wrap16(MixSum(cs, blocks, i, k, -1))
      {
        if clients[k].Some? && clients[k].value.connected {
          assert Connected(cs, k);
          Accumulate(cs, blocks, w, k, acc);
        } else {
          assert !Connected(cs, k);
        }
        k := k + 1;
      }
      mixed := acc[..];
    }

    /** A failed send in the mixer marks the client disconnected. */
    method Disconnect(c: nat)
      requires Valid() && c < MaxClients && clients[c].Some?
      modifies clients
      ensures Valid()
      ensures clients[..] == old(clients[..])[c := Some(old(clients[c]).value.(connected := false))]
    {
      ghost var cs0 := clients[..];
      clients[c] := Some(clients[c].value.(connected := false));
      assert forall k :: Connected(clients[..], k) ==> Connected(cs0, k);
      assert forall j :: Seated(clients[..], ordered[..], j) ==> Seated(cs0, ordered[..], j);
    }
  }

  // ------------------------------------------------------------- mixing

  /** Every block of `blocks` has `w` samples. */
  predicate Widths(blocks: seq<seq<int>>, w: nat)
  {
    forall b <- blocks :: |b| == w
  }

  /** Sample `i` of the exact sum of the blocks of the connected clients among
      the first `n` slots, leaving out slot `except` (-1 leaves out nobody). */
  function MixSum(cs: Clients, blocks: seq<seq<int>>, i: nat, n: nat, except: int): int
    requires n <= |cs| && n <= |blocks| && forall b <- blocks :: i < |b|
  {
    if n == 0 then 0
    else
      var k := n - 1;
      MixSum(cs, blocks, i, k, except) + (if Connected(cs, k) && k != except then blocks[k][i] else 0)
  }

  /** The full mix is the mix without `c` plus `c`'s own block, if `c` is a
      connected client; a slot that is not connected adds nothing. */
  lemma {:induction false} MixSumSplit(cs: Clients, blocks: seq<seq<int>>, i: nat, n: nat, c: nat)
    requires n <= |cs| && n <= |blocks| && forall b <- blocks :: i < |b|
    ensures MixSum(cs, blocks, i, n, -1) ==
      MixSum(cs, blocks, i, n, c) + (if c < n && Connected(cs, c) then blocks[c][i] else 0)
  {
    if n > 0 {
      MixSumSplit(cs, blocks, i, n - 1, c);
    }
  }

  /** `mixedBlock[i] += clientBlock[i]` for the connected client in slot `k`. */
  method Accumulate(ghost cs: Clients, blocks: seq<seq<int>>, w: nat, k: nat, acc: array<int>)
    requires k < |cs| == |blocks| && Widths(blocks, w) && Connected(cs, k) && acc.Length == w
    requires forall i :: 0 <= i < w ==> acc[i] == Wrap16(MixSum(cs, blocks, i, k, -1))
    modifies acc
    ensures forall i :: 0 <= i < w ==> acc[i] == Wrap16(MixSum(cs, blocks, i, k + 1, -1))
  {
    var t := 0;
    while t < w
      invariant 0 <= t <= w
      invariant forall i :: 0 <= i < t ==> acc[i] == Wrap16(MixSum(cs, blocks, i, k + 1, -1))
      invariant forall i :: t <= i < w ==> acc[i] == Wrap16(MixSum(cs, blocks, i, k, -1))
    {
      Wrap16Add(MixSum(cs, blocks, t, k, -1), blocks[k][t]);
      acc[t] := Wrap16(acc[t] + blocks[k][t]);
      t := t + 1;
    }
  }

  /** A metronome block's sample `i`, or 0 when there is no metronome block. */
  function MetrSample(metr: Option<seq<int>>, i: nat): int
  {
    if metr.Some? && i < |metr.value| then metr.value[i] else 0
  }

  /** The second mixing loop for client `c`: the block sent to it is the mix
      minus its own panned block plus the metronome block.  In 16-bit
      arithmetic that is the sum over the other connected clients plus the
      metronome; with no metronome block, the sum over the others alone. */
  method MixMinus(ghost cs: Clients, blocks: seq<seq<int>>, w: nat, c: nat, mixed: seq<int>,
                  metr: Option<seq<int>>) returns (out: seq<int>)
    requires |cs| == |blocks| && Widths(blocks, w) && Connected(cs, c)
    requires |mixed| == w && forall i :: 0 <= i < w ==> mixed[i] == Wrap16(MixSum(cs, blocks, i, |cs|, -1))
    requires metr.Some? ==> |metr.value| == w
    ensures |out| == w
    ensures forall i :: 0 <= i < w ==> out[i] == Wrap16(MixSum(cs, blocks, i, |cs|, c) + MetrSample(metr, i))
    ensures metr.None? ==> forall i :: 0 <= i < w ==> out[i] == Wrap16(MixSum(cs, blocks, i, |cs|, c))
  {
    var own := blocks[c];
    var block := new int[w](_ => 0);
    for i := 0 to w
      invariant forall t :: 0 <= t < i ==> block[t] == Wrap16(MixSum(cs, blocks, t, |cs|, c) + MetrSample(metr, t))
    {
      var m := if metr.Some? then metr.value[i] else 0;
      MixSumSplit(cs, blocks, i, |cs|, c);
      Wrap16Add(MixSum(cs, blocks, i, |cs|, -1), m - own[i]);
      block[i] := Wrap16(mixed[i] - own[i] + m);
    }
    out := block[..];
  }

  // --------------------------------------------------- metronome settings

  /** METR_MIN_BPM, METR_MAX_BPM and METR_MAX_BPB. */
  datatype MetrLimits = MetrLimits(minBpm: int, maxBpm: int, maxBpb: nat)

  /** The fields of `metronome` that the keys change. */
  datatype MetrSettings = MetrSettings(enabled: bool, bpm: int, bpb: nat, lastBeatTime: nat)

  predicate InLimits(lim: MetrLimits, s: MetrSettings)
  {
    lim.minBpm <= s.bpm <= lim.maxBpm && s.bpb <= lim.maxBpb
  }

  /** The tempo change a key asks for. */
  function BpmStep(key: char): int
  {
    match key
    case 'j' => -2
    case 'k' => 2
    case 'J' => -20
    case 'K' => 20
    case _ => 0
  }

  /** The metronome part of `udpRecvKeyPress`. */
  function SettingsKey(lim: MetrLimits, s: MetrSettings, key: char): (r: MetrSettings)
    ensures InLimits(lim, s) ==> InLimits(lim, r)
    ensures key == 'm' ==> r.enabled == !s.enabled && r.bpm == s.bpm && r.bpb == s.bpb
    ensures key == 'm' && r.enabled ==> r.lastBeatTime == 0
    ensures key == 'm' && !r.enabled ==> r.lastBeatTime == s.lastBeatTime
    ensures BpmStep(key) != 0 ==> r == s || r == s.(bpm := s.bpm + BpmStep(key))
    ensures BpmStep(key) < 0 ==> (r != s <==> s.bpm + BpmStep(key) >= lim.minBpm)
    ensures BpmStep(key) > 0 ==> (r != s <==> s.bpm + BpmStep(key) <= lim.maxBpm)
    ensures key == 'h' ==> r == s.(bpb := if s.bpb > 0 then s.bpb - 1 else 0)
    ensures key == 'l' ==> r == s.(bpb := if s.bpb < lim.maxBpb then s.bpb + 1 else s.bpb)
    ensures key !in "mjkJKhl" ==> r == s
  {
    match key
    case 'm' => if s.enabled then s.(enabled := false) else s.(lastBeatTime := 0, enabled := true)
    case 'j' => if s.bpm - 2 >= lim.minBpm then s.(bpm := s.bpm - 2) else s
    case 'k' => if s.bpm + 2 <= lim.maxBpm then s.(bpm := s.bpm + 2) else s
    case 'J' => if s.bpm - 20 >= lim.minBpm then s.(bpm := s.bpm - 20) else s
    case 'K' => if s.bpm + 20 <= lim.maxBpm then s.(bpm := s.bpm + 20) else s
    case 'h' => if s.bpb > 0 then s.(bpb := s.bpb - 1) else s
    case 'l' => if s.bpb < lim.maxBpb then s.(bpb := s.bpb + 1) else s
    case _ => s
  }

  /** A tempo step up followed by the matching step down restores the
      settings, whenever the step up was taken. */
  lemma TempoUpDown(lim: MetrLimits, s: MetrSettings, small: bool)
    requires lim.minBpm <= s.bpm
    ensures var up := if small then 'k' else 'K';
      var down := if small then 'j' else 'J';
      SettingsKey(lim, s, up) != s ==> SettingsKey(lim, SettingsKey(lim, s, up), down) == s
  {
  }

  /** Two presses of 'm' leave the metronome as enabled as it was. */
  lemma ToggleTwice(lim: MetrLimits, s: MetrSettings)
    ensures SettingsKey(lim, SettingsKey(lim, s, 'm'), 'm').enabled == s.enabled
    ensures SettingsKey(lim, SettingsKey(lim, s, 'm'), 'm').(lastBeatTime := s.lastBeatTime) == s
  {
  }

  // ------------------------------------------------------- metronome beats

  /** SIZE_MAX of a 64-bit `size_t`: `lastBeatBarIndex = -1` stores it. */
  const SizeMax: nat := 0xFFFF_FFFF_FFFF_FFFF

  /** `(lastBeatBarIndex + 1) % beatsPerBar` in `size_t` arithmetic: the
      increment wraps SIZE_MAX round to 0. */
  function NextBar(bar: nat, bpb: nat): (r: nat)
    requires bar <= SizeMax && 0 < bpb
    ensures r < bpb && r <= SizeMax
  {
    var next := if bar == SizeMax then 0 else bar + 1;
    ModBelow(next, bpb);
    next % bpb
  }

  lemma ModBelow(x: nat, n: nat)
    requires n > 0
    ensures x % n <= x
  {
    if x >= n {
      DivModUnique(x, n, x / n, x % n);
    }
  }

  /** The bar index after `k` beats from `bar` with a fixed `beatsPerBar`. */
  function BarAfter(bar: nat, bpb: nat, k: nat): (r: nat)
    requires bar <= SizeMax && 0 < bpb <= SizeMax
    ensures r <= SizeMax
  {
    if k == 0 then bar else NextBar(BarAfter(bar, bpb, k - 1), bpb)
  }

  /** After a restart (`lastBeatBarIndex = -1`) the beat with index `k` has
      bar index `k % beatsPerBar`, so the main beat is every bpb-th beat,
      starting with the first. */
  lemma {:induction false} BarCycle(bpb: nat, k: nat)
    requires 0 < bpb <= SizeMax
    ensures BarAfter(SizeMax, bpb, k + 1) == k % bpb
    ensures BarAfter(SizeMax, bpb, k + 1) == 0 <==> k % bpb == 0
  {
    if k > 0 {
      BarCycle(bpb, k - 1);
      ModNext(k - 1, bpb);
    }
  }

  lemma ModNext(k: nat, n: nat)
    requires 0 < n
    ensures (k % n + 1) % n == (k + 1) % n
  {
    var q := k / n;
    var r := k % n;
    assert k == q * n + r;
    if r + 1 < n {
      DivModUnique(k + 1, n, q, r + 1);
      DivModUnique(r + 1, n, 0, r + 1);
    } else {
      assert k + 1 == (q + 1) * n;
      DivModUnique(k + 1, n, q + 1, 0);
      DivModUnique(r + 1, n, 1, 0);
    }
  }

  /** The stereo blocks a beat is written as: consecutive `n`-sample pieces,
      the last one padded with silence. */
  function Chunks(beat: seq<int>, n: nat): (r: seq<seq<int>>)
    requires n > 0
    ensures forall b <- r :: |b| == n
    decreases |beat|
  {
    if beat == [] then []
    else if |beat| <= n then [beat + Zeros(n - |beat|)]
    else [beat[..n]] + Chunks(beat[n..], n)
  }

  /** A beat of `s` samples takes `ceil(s / n)` blocks. */
  lemma {:induction false} ChunksCount(beat: seq<int>, n: nat)
    requires n > 0
    ensures |Chunks(beat, n)| == (|beat| + n - 1) / n
    decreases |beat|
  {
    if |beat| > n {
      ChunksCount(beat[n..], n);
      DivStep(|beat[n..]| + n - 1, n);
    } else if beat != [] {
      DivModUnique(|beat| + n - 1, n, 1, |beat| - 1);
    } else {
      DivModUnique(n - 1, n, 0, n - 1);
    }
  }

  lemma DivStep(x: nat, n: nat)
    requires n > 0
    ensures (x + n) / n == x / n + 1
  {
    DivModUnique(x, n, x / n, x % n);
    DivModUnique(x + n, n, x / n + 1, x % n);
  }

  /** Laid end to end the blocks are the beat followed by fewer than `n`
      zeros. */
  lemma {:induction false} ChunksCover(beat: seq<int>, n: nat)
    requires n > 0
    ensures var f := Flatten(Chunks(beat, n));
      |beat| <= |f| < |beat| + n &&
      f[..|beat|] == beat && forall k :: |beat| <= k < |f| ==> f[k] == 0
    decreases |beat|
  {
    var c := Chunks(beat, n);
    if |beat| > n {
      var rest := beat[n..];
      ChunksCover(rest, n);
      var g := Flatten(Chunks(rest, n));
      assert c[1..] == Chunks(rest, n);
      var f := beat[..n] + g;
      assert Flatten(c) == f;
      assert f[..|beat|] == beat[..n] + g[..|rest|];
      assert beat == beat[..n] + rest;
      forall k | |beat| <= k < |f|
        ensures f[k] == 0
      {
        assert f[k] == g[k - n];
      }
    } else if beat != [] {
      assert c[1..] == [];
      var f := beat + Zeros(n - |beat|);
      assert Flatten(c) == f + [];
      assert f[..|beat|] == beat;
    }
  }

  /** Writing the blocks `bs` to the metronome buffer at `t`, `t + 1`, …
      with `add` set, as `sbufferWrite` does. */
  function WriteChunks(p: AudioBuffer.Params, s: AudioBuffer.BufState, t: nat, bs: seq<seq<int>>)
    : (r: AudioBuffer.BufState)
    requires AudioBuffer.ValidState(p, s) && forall b <- bs :: |b| == p.blockSize
    ensures AudioBuffer.ValidState(p, r)
    ensures r.writeLastPos >= s.writeLastPos
    ensures bs != [] ==> r.writeLastPos >= t + |bs| - 1
    decreases |bs|
  {
    if bs == [] then s
    else WriteChunks(p, AudioBuffer.WriteStep(p, s, t, bs[0], true).state, t + 1, bs[1..])
  }

  /** Writing a first block and then the rest is writing them all. */
  lemma WriteChunksCons(p: AudioBuffer.Params, s: AudioBuffer.BufState, t: nat, b: seq<int>, rest: seq<seq<int>>,
                        after: AudioBuffer.BufState)
    requires AudioBuffer.ValidState(p, s) && |b| == p.blockSize && forall x <- rest :: |x| == p.blockSize
    requires after == AudioBuffer.WriteStep(p, s, t, b, true).state
    ensures WriteChunks(p, s, t, [b] + rest) == WriteChunks(p, after, t + 1, rest)
  {
    assert ([b] + rest)[0] == b && ([b] + rest)[1..] == rest;
  }

  /** The zero-padded rest of the beat is its last block. */
  lemma ChunksLast(beat: seq<int>, base: nat, n: nat)
    requires base < |beat| < base + n
    ensures Chunks(beat[base..], n) == [beat[base..] + Zeros(base + n - |beat|)]
  {
  }

  lemma ChunksStep(beat: seq<int>, base: nat, n: nat, i: nat)
    requires n > 0 && i == base + n <= |beat|
    ensures Chunks(beat[base..], n) == [beat[base..i]] + Chunks(beat[i..], n)
    ensures |Chunks(beat[base..], n)| == |Chunks(beat[i..], n)| + 1
  {
    var rest := beat[base..];
    assert rest[..n] == beat[base..i];
    assert rest[n..] == beat[i..];
    if |rest| == n {
      assert rest + Zeros(0) == rest;
    }
  }

  lemma ModOffset(q: nat, r: nat, n: nat)
    requires n > 0 && r <= n
    ensures (q * n + r) % n == (if r == n then 0 else r)
  {
    if r == n {
      assert q * n + r == (q + 1) * n + 0;
      DivModUnique(q * n + r, n, q + 1, 0);
    } else {
      DivModUnique(q * n + r, n, q, r);
    }
  }

  /** The samples `beat[base..i]` of the block being built sit at the
      front of `mixedBlock`. */
  ghost predicate Copied(scratch: array<int>, beat: seq<int>, base: nat, i: nat)
    reads scratch
  {
    base <= i <= |beat| && i - base <= scratch.Length && forall k :: base <= k < i ==> scratch[k - base] == beat[k]
  }

  /** `struct metronome`: settings, beat counters and its stereo buffer. */
  class Metronome {
    const lim: MetrLimits
    var enabled: bool
    var bpm: int
    var bpb: nat
    var lastBeatTime: nat
    var lastBeatIndex: int
    var lastBarIndex: nat
    const buffer: AudioBuffer.Buffer

    function Settings(): MetrSettings
      reads this
    {
      MetrSettings(enabled, bpm, bpb, lastBeatTime)
    }

    ghost predicate Valid()
      reads this, buffer, buffer.blockTime, buffer.data
    {
      buffer.Valid() && InLimits(lim, Settings()) && lastBarIndex <= SizeMax && lastBeatIndex >= -1
    }

    /** The zero-initialised `metronome` after the settings of `main`. */
    constructor (limits: MetrLimits, defaultBpm: int, defaultBpb: nat, p: AudioBuffer.Params)
      requires AudioBuffer.ValidParams(p)
      requires InLimits(limits, MetrSettings(false, defaultBpm, defaultBpb, 0))
      ensures Valid() && lim == limits && buffer.p == p
      ensures Settings() == MetrSettings(false, defaultBpm, defaultBpb, 0)
    {
      lim := limits;
      enabled, bpm, bpb, lastBeatTime := false, defaultBpm, defaultBpb, 0;
      lastBeatIndex, lastBarIndex := 0, 0;
      buffer := new AudioBuffer.Buffer(p, 0);
    }

    /** A metronome key of `udpRecvKeyPress`. */
    method Key(key: char)
      requires Valid()
      modifies this
      ensures Valid()
      ensures Settings() == SettingsKey(lim, old(Settings()), key)
      ensures lastBeatIndex == old(lastBeatIndex) && lastBarIndex == old(lastBarIndex)
    {
      if key == 'm' {
        if enabled {
          enabled := false;
        } else {
          lastBeatTime := 0;
          enabled := true;
        }
      } else if key == 'j' {
        if bpm - 2 >= lim.minBpm {
          bpm := bpm - 2;
        }
      } else if key == 'k' {
        if bpm + 2 <= lim.maxBpm {
          bpm := bpm + 2;
        }
      } else if key == 'J' {
        if bpm - 20 >= lim.minBpm {
          bpm := bpm - 20;
        }
      } else if key == 'K' {
        if bpm + 20 <= lim.maxBpm {
          bpm := bpm + 20;
        }
      } else if key == 'h' {
        if bpb > 0 {
          bpb := bpb - 1;
        }
      } else if key == 'l' {
        if bpb < lim.maxBpb {
          bpb := bpb + 1;
        }
      }
    }

    /** The restart when the metronome was just enabled (`lastBeatTime == 0`):
        beat and bar counters back to -1 and the buffer cleared with read
        position 0. */
    method Restart()
      requires Valid()
      modifies this, buffer, buffer.blockTime
      ensures Valid()
      ensures Settings() == old(Settings())
      ensures lastBeatIndex == -1 && lastBarIndex == SizeMax
      ensures buffer.State() == AudioBuffer.ClearedState(old(buffer.State()), 0)
    {
      lastBeatIndex := -1;
      lastBarIndex := SizeMax;
      buffer.Clear(0);
    }

    /** A beat due at `nextBeatTime`: advance the beat and bar counters, pick
        the main or the ordinary beat sound, and write it to the buffer as
        consecutive blocks from `nextBeatTime` on.  `scratch` is `mixedBlock`.
        The result is the time after the last block written. */
    method Beat(nextBeatTime: nat, mainBeat: seq<int>, otherBeat: seq<int>, scratch: array<int>)
      returns (isMain: bool, t: nat)
      requires Valid() && lastBeatIndex < SizeMax
      requires scratch.Length == buffer.p.blockSize && (scratch as object) != buffer.blockTime
      modifies this, buffer, buffer.blockTime, buffer.data, scratch
      ensures Valid()
      ensures Settings() == old(Settings()).(lastBeatTime := nextBeatTime)
      ensures lastBeatIndex == old(lastBeatIndex) + 1
      ensures old(bpb) == 0 ==> lastBarIndex == old(lastBarIndex) && !isMain
      ensures old(bpb) > 0 ==> lastBarIndex == NextBar(old(lastBarIndex), old(bpb)) && (isMain <==> lastBarIndex == 0)
      ensures t == nextBeatTime + |Chunks(if isMain then mainBeat else otherBeat, buffer.p.blockSize)|
      ensures buffer.State() == WriteChunks(buffer.p, old(buffer.State()), nextBeatTime,
                                            Chunks(if isMain then mainBeat else otherBeat, buffer.p.blockSize))
    {
      isMain := Advance(nextBeatTime);
      t := WriteBeat(if isMain then mainBeat else otherBeat, nextBeatTime, scratch);
    }

    /** The counters of a new beat. */
    method Advance(nextBeatTime: nat) returns (isMain: bool)
      requires Valid() && lastBeatIndex < SizeMax
      modifies this
      ensures Valid()
      ensures Settings() == old(Settings()).(lastBeatTime := nextBeatTime)
      ensures lastBeatIndex == old(lastBeatIndex) + 1
      ensures old(bpb) == 0 ==> lastBarIndex == old(lastBarIndex) && !isMain
      ensures old(bpb) > 0 ==> lastBarIndex == NextBar(old(lastBarIndex), old(bpb)) && (isMain <==> lastBarIndex == 0)
    {
      lastBeatIndex := lastBeatIndex + 1;
      isMain := false;
      if bpb > 0 {
        lastBarIndex := NextBar(lastBarIndex, bpb);
        isMain := lastBarIndex == 0;
      }
      lastBeatTime := nextBeatTime;
    }

    /** The copy loop: sample `i` of the beat goes to `scratch[i % n]`, and
        every full block, then the zero-padded last one, is written. */
    method WriteBeat(beat: seq<int>, t0: nat, scratch: array<int>) returns (t: nat)
      requires buffer.Valid()
      requires scratch.Length == buffer.p.blockSize && (scratch as object) != buffer.blockTime
      modifies buffer, buffer.blockTime, buffer.data, scratch
      ensures buffer.Valid()
      ensures t == t0 + |Chunks(beat, buffer.p.blockSize)|
      ensures buffer.State() == WriteChunks(buffer.p, old(buffer.State()), t0, Chunks(beat, buffer.p.blockSize))
    {
      var n := scratch.Length;
      ghost var goal := WriteChunks(buffer.p, buffer.State(), t0, Chunks(beat, n));
      ghost var count := t0 + |Chunks(beat, n)|;
      ghost var base: nat := 0;
      ghost var q: nat := 0;
      var i: nat := 0;
      t := t0;
      assert beat[0..] == beat;
      while i < |beat|
        invariant buffer.Valid()
        invariant base <= i <= |beat| && i - base < n && base == q * n
        invariant Copied(scratch, beat, base, i)
        invariant WriteChunks(buffer.p, buffer.State(), t, Chunks(beat[base..], n)) == goal
        invariant t + |Chunks(beat[base..], n)| == count
      {
        i, t, base, q := Step(beat, i, t, base, q, goal, count, scratch);
      }
      t := Finish(beat, i, t, base, q, goal, count, scratch);
    }

    /** After the copy loop: the zero-padded last block, if the beat did not
        fill whole blocks. */
    method Finish(beat: seq<int>, i: nat, t0: nat, ghost base: nat, ghost q: nat,
                  ghost goal: AudioBuffer.BufState, ghost count: nat, scratch: array<int>) returns (t: nat)
      requires buffer.Valid()
      requires scratch.Length == buffer.p.blockSize && (scratch as object) != buffer.blockTime
      requires base <= i == |beat| && i - base < scratch.Length && base == q * scratch.Length
      requires Copied(scratch, beat, base, i)
      requires WriteChunks(buffer.p, buffer.State(), t0, Chunks(beat[base..], scratch.Length)) == goal
      requires t0 + |Chunks(beat[base..], scratch.Length)| == count
      modifies buffer, buffer.blockTime, buffer.data, scratch
      ensures buffer.Valid()
      ensures buffer.State() == goal && t == count
    {
      var n := scratch.Length;
      t := t0;
      ModOffset(q, i - base, n);
      if i % n != 0 {
        t := FlushLast(beat, i, t, base, q, goal, count, scratch);
      } else {
        assert beat[base..] == [];
      }
    }

    /** The last, partly filled block is padded with silence and written. */
    method FlushLast(beat: seq<int>, i: nat, t0: nat, ghost base: nat, ghost q: nat,
                     ghost goal: AudioBuffer.BufState, ghost count: nat, scratch: array<int>) returns (t: nat)
      requires buffer.Valid()
      requires scratch.Length == buffer.p.blockSize && (scratch as object) != buffer.blockTime
      requires base < i == |beat| < base + scratch.Length && base == q * scratch.Length
      requires Copied(scratch, beat, base, i)
      requires WriteChunks(buffer.p, buffer.State(), t0, Chunks(beat[base..], scratch.Length)) == goal
      requires t0 + |Chunks(beat[base..], scratch.Length)| == count
      modifies buffer, buffer.blockTime, buffer.data, scratch
      ensures buffer.Valid()
      ensures buffer.State() == goal && t == count
    {
      Pad(beat, base, q, i, scratch);
      ChunksLast(beat, base, scratch.Length);
      Emit(t0, scratch[..], []);
      t := t0 + 1;
    }

    /** One round of the copy loop: sample `i` is copied, and a block that
        is now full is written out. */
    method Step(beat: seq<int>, i0: nat, t0: nat, ghost base0: nat, ghost q0: nat,
                ghost goal: AudioBuffer.BufState, ghost count: nat, scratch: array<int>)
      returns (i: nat, t: nat, ghost base: nat, ghost q: nat)
      requires buffer.Valid()
      requires scratch.Length == buffer.p.blockSize && (scratch as object) != buffer.blockTime
      requires base0 <= i0 < |beat| && i0 - base0 < scratch.Length && base0 == q0 * scratch.Length
      requires Copied(scratch, beat, base0, i0)
      requires WriteChunks(buffer.p, buffer.State(), t0, Chunks(beat[base0..], scratch.Length)) == goal
      requires t0 + |Chunks(beat[base0..], scratch.Length)| == count
      modifies buffer, buffer.blockTime, buffer.data, scratch
      ensures buffer.Valid()
      ensures i == i0 + 1
      ensures base <= i <= |beat| && i - base < scratch.Length && base == q * scratch.Length
      ensures Copied(scratch, beat, base, i)
      ensures WriteChunks(buffer.p, buffer.State(), t, Chunks(beat[base..], scratch.Length)) == goal
      ensures t + |Chunks(beat[base..], scratch.Length)| == count
    {
      var n := scratch.Length;
      i, t, base, q := i0, t0, base0, q0;
      Store(beat, base, q, i, scratch);
      i := i + 1;
      ModOffset(q, i - base, n);
      if i % n == 0 {
        t, base, q := Flush(beat, base, q, i, t, goal, count, scratch);
      }
    }

    /** The block `beat[base0..i]` is full and is written at `t`; the next
        block starts at `i`. */
    method Flush(beat: seq<int>, ghost base0: nat, ghost q0: nat, i: nat, t0: nat, ghost goal: AudioBuffer.BufState,
                 ghost count: nat, scratch: array<int>) returns (t: nat, ghost base: nat, ghost q: nat)
      requires buffer.Valid() && scratch.Length == buffer.p.blockSize && (scratch as object) != buffer.blockTime
      requires i == base0 + scratch.Length <= |beat| && Copied(scratch, beat, base0, i) && base0 == q0 * scratch.Length
      requires WriteChunks(buffer.p, buffer.State(), t0, Chunks(beat[base0..], scratch.Length)) == goal
      requires t0 + |Chunks(beat[base0..], scratch.Length)| == count
      modifies buffer, buffer.blockTime, buffer.data
      ensures buffer.Valid()
      ensures base == i && base == q * scratch.Length
      ensures WriteChunks(buffer.p, buffer.State(), t, Chunks(beat[base..], scratch.Length)) == goal
      ensures t + |Chunks(beat[base..], scratch.Length)| == count
    {
      ChunksStep(beat, base0, scratch.Length, i);
      assert scratch[..] == beat[base0..i];
      Emit(t0, scratch[..], Chunks(beat[i..], scratch.Length));
      t := t0 + 1;
      MulSucc(q0, scratch.Length);
      base, q := i, q0 + 1;
    }

    /** `mixedBlock[i % STEREO_BLOCK_SIZE] = beat[i]`. */
    method Store(beat: seq<int>, ghost base: nat, ghost q: nat, i: nat, scratch: array<int>)
      requires scratch.Length > 0 && base == q * scratch.Length
      requires base <= i < |beat| && i - base < scratch.Length
      requires Copied(scratch, beat, base, i)
      modifies scratch
      ensures Copied(scratch, beat, base, i + 1)
    {
      ModOffset(q, i - base, scratch.Length);
      scratch[i % scratch.Length] := beat[i];
    }

    /** The zero-padding loop of the last block. */
    method Pad(ghost beat: seq<int>, ghost base: nat, ghost q: nat, i0: nat, scratch: array<int>)
      requires scratch.Length > 0 && base == q * scratch.Length
      requires i0 == |beat| && base < i0 < base + scratch.Length
      requires Copied(scratch, beat, base, i0)
      modifies scratch
      ensures scratch[..] == beat[base..] + Zeros(base + scratch.Length - i0)
    {
      var n := scratch.Length;
      var i := i0;
      assert scratch[..i - base] == beat[base..] + Zeros(0);
      ModOffset(q, i - base, n);
      while i % n != 0
        invariant i0 <= i <= base + n
        invariant scratch[..i - base] == beat[base..] + Zeros(i - i0)
        invariant (i % n == 0) == (i == base + n)
        decreases base + n - i
      {
        ModOffset(q, i - base, n);
        scratch[i % n] := 0;
        assert scratch[..i + 1 - base] == beat[base..] + Zeros(i + 1 - i0);
        i := i + 1;
        ModOffset(q, i - base, n);
      }
      assert scratch[..] == scratch[..i - base];
    }

    /** One `sbufferWrite(&metronome.buffer, t, mixedBlock, true)` of the copy
        loop: what is left to write after `blk` is `rest`. */
    method Emit(t: nat, blk: seq<int>, ghost rest: seq<seq<int>>)
      requires buffer.Valid() && |blk| == buffer.p.blockSize && forall b <- rest :: |b| == buffer.p.blockSize
      modifies buffer, buffer.blockTime, buffer.data
      ensures buffer.Valid()
      ensures WriteChunks(buffer.p, buffer.State(), t + 1, rest) == WriteChunks(buffer.p, old(buffer.State()), t, [blk] + rest)
    {
      ghost var before := buffer.State();
      var _ := buffer.Write(t, blk, true);
      WriteChunksCons(buffer.p, before, t, blk, rest, buffer.State());
    }
  }
}
