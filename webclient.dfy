// The command-line WebSocket client of webclient.c: the parsing of the one
// browser request that names the WebSocket endpoint as /ADDR[:PORT]/PATH.

module WebClient {
  import opened Wrappers
  import Client

  // ---------------------------------------------------------------------
  // The browser's request: oneTimeHTTPServer and the split in main

  /** MAX_URL_LEN: the size of `requestStr`. */
  const MaxUrlLen := 1024

  /** The most oneTimeHTTPServer receives: `recv` into `buf` of
      MAX_URL_LEN + 5 characters, leaving room for its '\0'. */
  const RecvLimit := MaxUrlLen + 4

  /** The position of the first ' ' or '\0' of `s`, or `|s|`: where
      `strchr(buf + 4, ' ')` stops. */
  function Stop(s: string): (k: nat)
    ensures k <= |s|
    ensures forall j :: 0 <= j < k ==> s[j] != ' ' && s[j] != '\0'
    ensures k < |s| ==> s[k] == ' ' || s[k] == '\0'
  {
    if s == [] || s[0] == ' ' || s[0] == '\0' then 0 else 1 + Stop(s[1..])
  }

  /** The request target oneTimeHTTPServer keeps from the `received`
      characters: nothing unless they start with "GET "; otherwise the
      text after it up to the first space or the end of the C string. */
  function RequestPath(received: string): Option<string>
  {
    if |received| < 4 || received[..4] != "GET " then None
    else
      var s := received[4..];
      Some(s[..Stop(s)])
  }

  /** `strncpy(dst, src, n)` of a C string `src`: the characters that fit,
      then '\0' up to `n`. */
  function StrNCpy(src: string, n: nat): (r: string)
    ensures |r| == n
  {
    var m := if |src| < n then |src| else n;
    src[..m] + seq(n - m, _ => '\0')
  }

  /** Reading a request back: "GET ", a target without spaces, then the
      rest of the request line, yields that target. */
  lemma RequestRoundTrip(target: string, rest: string)
    requires ' ' !in target && '\0' !in target
    requires rest == [] || rest[0] == ' ' || rest[0] == '\0'
    ensures RequestPath("GET " + target + rest) == Some(target)
  {
    var s := ("GET " + target + rest)[4..];
    assert s == target + rest;
    assert s[..|target|] == target;
  }

  /** The target kept has no space and no '\0', and fits in what was
      received after "GET ". */
  lemma RequestPathShape(received: string)
    requires RequestPath(received).Some?
    ensures var p := RequestPath(received).value;
      ' ' !in p && '\0' !in p && |p| <= |received| - 4 && received[..4] == "GET "
      && received[4..4 + |p|] == p
  {
  }

  /** `strncpy` leaves a terminated copy exactly when the source is
      shorter than `n`; the copy then reads back as the source. */
  lemma CopyTerminated(src: string, n: nat)
    requires '\0' !in src
    ensures ('\0' in StrNCpy(src, n)) <==> |src| < n
    ensures |src| < n ==> Client.CStr(StrNCpy(src, n)) == src && StrNCpy(src, n)[n - 1] == '\0'
  {
    var r := StrNCpy(src, n);
    if |src| < n {
      assert r[|src|] == '\0';
      Client.CStrAt(r, |src|);
      assert r[..|src|] == src;
    } else {
      assert r == src[..n];
    }
  }

  /** A request line of "GET " and MAX_URL_LEN characters without a space
      fits in `buf`, yet `strncpy` then fills `requestStr` without a
      terminating '\0': the `strchr` calls of main read past its end. */
  lemma UnterminatedRequest()
    ensures var received := "GET " + seq(MaxUrlLen, _ => 'a');
      |received| <= RecvLimit && RequestPath(received).Some?
      && '\0' !in StrNCpy(RequestPath(received).value, MaxUrlLen)
  {
    var target := seq(MaxUrlLen, _ => 'a');
    RequestRoundTrip(target, []);
    assert "GET " + target + [] == "GET " + target;
    CopyTerminated(target, MaxUrlLen);
  }

  /** The most a corrected oneTimeHTTPServer receives: one character less,
      so that the target is at most MAX_URL_LEN - 1 characters long. */
  const FixedRecvLimit := MaxUrlLen + 3

  /** With the corrected limit `requestStr` always holds the whole target,
      terminated. */
  lemma RequestTerminated(received: string)
    requires |received| <= FixedRecvLimit && RequestPath(received).Some?
    ensures var r := StrNCpy(RequestPath(received).value, MaxUrlLen);
      r[MaxUrlLen - 1] == '\0' && Client.CStr(r) == RequestPath(received).value
  {
    RequestPathShape(received);
    CopyTerminated(RequestPath(received).value, MaxUrlLen);
  }

  /** The request part of oneTimeHTTPServer for the `received` characters
      (the socket calls are left out): `buf` gets them and a '\0', a
      request not starting with "GET " is rejected, the first space after
      it is cut and the target copied into `req` by `strncpy`. */
  method ReadRequest(received: string, req: array<char>) returns (ok: bool)
    requires |received| <= RecvLimit && req.Length == MaxUrlLen
    modifies req
    ensures ok == RequestPath(received).Some?
    ensures ok ==> req[..] == StrNCpy(RequestPath(received).value, MaxUrlLen)
    ensures !ok ==> req[..] == old(req[..])
  {
    var size := |received|;
    var buf := new char[MaxUrlLen + 5](k => if 0 <= k < size then received[k] else ' ');
    buf[size] := '\0';
    if buf[0] != 'G' || buf[1] != 'E' || buf[2] != 'T' || buf[3] != ' ' {
      assert |received| < 4 || received[..4] != "GET " by {
        if |received| >= 4 {
          assert received[..4] == buf[..4];
        }
      }
      return false;
    }
    assert 4 <= size && received[..4] == "GET ";
    ghost var target := RequestPath(received).value;
    var i := SkipToSpace(buf, size, received);
    buf[i] := '\0';
    CopyN(req, buf, 4, target);
    return true;
  }

  /** `strchr(buf + 4, ' ')` on the received C string: the first space, or
      the terminating '\0'. */
  method SkipToSpace(buf: array<char>, size: nat, ghost received: string) returns (i: nat)
    requires 4 <= size == |received| < buf.Length && buf[size] == '\0'
    requires forall k :: 4 <= k < size ==> buf[k] == received[k]
    ensures i == 4 + Stop(received[4..])
  {
    ghost var s := received[4..];
    i := 4;
    while buf[i] != '\0' && buf[i] != ' '
      invariant 4 <= i <= size
      invariant forall j :: 0 <= j < i - 4 ==> s[j] != ' ' && s[j] != '\0'
      decreases size - i
    {
      assert s[i - 4] == buf[i];
      i := i + 1;
    }
    if i < size {
      assert s[i - 4] == buf[i];
    }
    StopIs(s, i - 4);
  }

  /** `Stop` is the first space or '\0'. */
  lemma {:induction false} StopIs(s: string, k: nat)
    requires k <= |s| && (k < |s| ==> s[k] == ' ' || s[k] == '\0')
    requires forall j :: 0 <= j < k ==> s[j] != ' ' && s[j] != '\0'
    ensures Stop(s) == k
  {
    if k > 0 {
      StopIs(s[1..], k - 1);
    }
  }

  /** `strncpy(dst, src + from, dst.Length)` where the C string at `from`
      is `t`. */
  method CopyN(dst: array<char>, src: array<char>, from: nat, ghost t: string)
    requires dst != src && from + |t| < src.Length && src[from + |t|] == '\0'
    requires '\0' !in t && forall k :: 0 <= k < |t| ==> src[from + k] == t[k]
    modifies dst
    ensures dst[..] == StrNCpy(t, dst.Length)
  {
    var j := 0;
    while j < dst.Length && src[from + j] != '\0'
      invariant 0 <= j <= |t| && j <= dst.Length
      invariant j < |t| ==> src[from + j] == t[j]
      invariant forall k :: 0 <= k < j ==> dst[k] == t[k]
      decreases dst.Length - j
    {
      assert src[from + j] == t[j];
      dst[j] := src[from + j];
      j := j + 1;
    }
    ghost var r := StrNCpy(t, dst.Length);
    assert j == if |t| < dst.Length then |t| else dst.Length;
    while j < dst.Length
      invariant 0 <= j <= dst.Length
      invariant forall k :: 0 <= k < j ==> dst[k] == r[k]
    {
      dst[j] := '\0';
      j := j + 1;
    }
    assert dst[..] == r;
  }

  /** Where main connects: ADDR, PORT and PATH of /ADDR[:PORT]/PATH. */
  datatype Endpoint = Endpoint(addr: string, port: string, path: string)

  /** The port part of the split, for `requestStr` whose first character
      is `first`, followed by `host` (ADDR[:PORT]) and then the path: a
      ':' first makes `host` both address and port; otherwise the first
      ':' of `host` ends the address, and without one the port is "80". */
  function PortSplit(first: char, host: string, path: string): Endpoint
  {
    if first == ':' then Endpoint(host, host, path)
    else if first == '\0' then Endpoint(host, "80", path)
    else
      var c := Client.Find(host, ':');
      if c < |host| then Endpoint(host[..c], host[c + 1..], path) else Endpoint(host, "80", path)
  }

  /** What main makes of `requestStr` holding `s`: the C string after the
      first character, up to its first '/', is ADDR[:PORT] and the rest of
      it the path; without a '/' the request is refused. */
  function Split(s: string): Option<Endpoint>
    requires s != []
  {
    var v := Client.CStr(s[1..]);
    var k := Client.Find(v, '/');
    if k == |v| then None else Some(PortSplit(s[0], v[..k], v[k + 1..]))
  }

  /** Writing an endpoint as /ADDR:PORT/PATH or /ADDR/PATH and splitting it
      gives it back, the default port for the short form; the path may
      hold ':' and '/'. */
  lemma SplitRoundTrip(addr: string, port: string, path: string, rest: string)
    requires '/' !in addr && ':' !in addr && '\0' !in addr
    requires '/' !in port && '\0' !in port && '\0' !in path
    ensures Split("/" + addr + ":" + port + "/" + path + "\0" + rest) == Some(Endpoint(addr, port, path))
    ensures Split("/" + addr + "/" + path + "\0" + rest) == Some(Endpoint(addr, "80", path))
  {
    assert "/" + addr + ":" + port + "/" + path + "\0" + rest == "/" + (addr + ":" + port) + "/" + path + "\0" + rest;
    SplitOf("/", addr + ":" + port, path, rest);
    HostSplit(addr, port);
    SplitOf("/", addr, path, rest);
    Client.FindIs(addr, ':', |addr|);
  }

  lemma HostSplit(addr: string, port: string)
    requires ':' !in addr
    ensures var host := addr + ":" + port;
      Client.Find(host, ':') == |addr| && host[..|addr|] == addr && host[|addr| + 1..] == port
  {
    Client.FindIs(addr + ":" + port, ':', |addr|);
  }

  lemma SplitOf(first: string, host: string, path: string, rest: string)
    requires |first| == 1 && '/' !in host && '\0' !in host && '\0' !in path
    ensures Split(first + host + "/" + path + "\0" + rest) == Some(PortSplit(first[0], host, path))
  {
    var s := first + host + "/" + path + "\0" + rest;
    var a := s[1..];
    var v := host + "/" + path;
    assert a == v + "\0" + rest;
    Client.CStrAt(a, |v|);
    assert a[..|v|] == v;
    Client.FindIs(v, '/', |host|);
    assert v[..|host|] == host && v[|host| + 1..] == path;
  }

  /** The C string of `a` from `m` on, for `m` within it. */
  lemma {:induction false} CStrSuffix(a: string, m: nat)
    requires m <= Client.Find(a, '\0')
    ensures Client.CStr(a)[m..] == Client.CStr(a[m..])
  {
    var q := Client.Find(a, '\0');
    forall k | 0 <= k < q - m
      ensures a[m..][k] != '\0'
    {
      Client.BeforeFind(a, '\0', m + k);
    }
    Client.FindIs(a[m..], '\0', q - m);
  }

  /** `char *path = strchr(requestStr + 1, '/')`, the cut `*path++ = '\0'`,
      `strchr(requestStr, ':')` and its cut: the positions of the port
      (none for "80") and of the path in `req`, the address being at 1. */
  method SplitRequest(req: array<char>) returns (found: bool, port: Option<nat>, pathAt: nat)
    requires req.Length >= 2 && exists z :: 1 <= z < req.Length && req[z] == '\0'
    modifies req
    ensures found == Split(old(req[..])).Some?
    ensures found ==> 2 <= pathAt <= req.Length && (port.Some? ==> 1 <= port.value < pathAt)
    ensures found ==> Split(old(req[..])) == Some(Endpoint(Client.CStr(req[1..]),
      if port.Some? then Client.CStr(req[port.value..]) else "80", Client.CStr(req[pathAt..])))
    ensures !found ==> req[..] == old(req[..])
    ensures found ==> req[..] == Cut(old(req[..]), pathAt - 1, port)
  {
    ghost var s := req[..];
    ghost var z := FirstNul(s);
    var i := StrChr(req, 1, '/', z);
    if req[i] == '\0' {
      NoSlash(s, i);
      return false, None, 0;
    }
    Slash(s, i, z);
    req[i] := '\0';
    assert req[..] == s[i := '\0'];
    pathAt := i + 1;
    port := CutPort(req, s, i);
    assert old(req[..]) == s && pathAt - 1 == i;
    assert req[..] == Cut(old(req[..]), pathAt - 1, port);
    found := true;
  }

  /** `requestStr` after the split: '\0' written over the '/' at `slash`
      and over the ':' before the port, if there is one. */
  function Cut(s: string, slash: nat, port: Option<nat>): string
    requires slash < |s| && (port.Some? ==> 1 <= port.value <= slash)
  {
    if port.Some? then s[slash := '\0'][port.value - 1 := '\0'] else s[slash := '\0']
  }

  /** `char *port = strchr(requestStr, ':')` and its cut, once the '/' at
      `i` is cut: the position of the port, none for "80". */
  method CutPort(req: array<char>, ghost s: string, i: nat) returns (port: Option<nat>)
    requires 1 <= i < req.Length == |s| && s[i] == '/' && req[..] == s[i := '\0']
    requires forall k :: 1 <= k < i ==> s[k] != '\0'
    modifies req
    ensures port.Some? ==> 1 <= port.value <= i
    ensures req[..] == Cut(s, i, port)
    ensures PortSplit(s[0], s[1..i], Client.CStr(s[i + 1..])) == Endpoint(Client.CStr(req[1..]),
      if port.Some? then Client.CStr(req[port.value..]) else "80", Client.CStr(req[i + 1..]))
  {
    var j := StrChr(req, 0, ':', i);
    assert forall k :: 0 <= k < i ==> req[k] == s[k];
    if req[j] == ':' {
      req[j] := '\0';
      assert req[..] == s[i := '\0'][j := '\0'];
      port := Some(j + 1);
      PortAt(s, i, j);
    } else {
      port := None;
      NoPort(s, i, j);
    }
  }

  /** `strchr(a + from, c)` for `c` other than '\0', on a C string ending
      at `z` or before: the first `c` or the end of the string. */
  method StrChr(a: array<char>, from: nat, c: char, ghost z: nat) returns (i: nat)
    requires c != '\0' && from <= z < a.Length && a[z] == '\0'
    ensures from <= i <= z && (a[i] == c || a[i] == '\0')
    ensures forall k :: from <= k < i ==> a[k] != '\0' && a[k] != c
  {
    i := from;
    while a[i] != '\0' && a[i] != c
      invariant from <= i <= z
      invariant forall k :: from <= k < i ==> a[k] != '\0' && a[k] != c
      decreases z - i
    {
      i := i + 1;
    }
  }

  /** The first '\0' after the first character. */
  lemma FirstNul(s: string) returns (z: nat)
    requires exists z :: 1 <= z < |s| && s[z] == '\0'
    ensures 1 <= z < |s| && s[z] == '\0' && z == 1 + Client.Find(s[1..], '\0')
    ensures forall k :: 1 <= k < z ==> s[k] != '\0'
  {
    var w :| 1 <= w < |s| && s[w] == '\0';
    var q := Client.Find(s[1..], '\0');
    if w - 1 < q {
      Client.BeforeFind(s[1..], '\0', w - 1);
    }
    z := 1 + q;
    forall k | 1 <= k < z
      ensures s[k] != '\0'
    {
      Client.BeforeFind(s[1..], '\0', k - 1);
    }
  }

  /** No '/' before the first '\0': the request is refused. */
  lemma NoSlash(s: string, i: nat)
    requires 1 <= i < |s| && s[i] == '\0'
    requires forall k :: 1 <= k < i ==> s[k] != '\0' && s[k] != '/'
    ensures Split(s) == None
  {
    Client.CStrAt(s[1..], i - 1);
    Client.FindIs(s[1..][..i - 1], '/', i - 1);
  }

  /** The first '/' at `i`, before the first '\0' at `z`. */
  lemma Slash(s: string, i: nat, z: nat)
    requires 1 <= i < z < |s| && s[i] == '/' && s[z] == '\0'
    requires forall k :: 1 <= k < i ==> s[k] != '/'
    requires forall k :: 1 <= k < z ==> s[k] != '\0'
    ensures Split(s) == Some(PortSplit(s[0], s[1..i], Client.CStr(s[i + 1..])))
  {
    var a := s[1..];
    Client.CStrAt(a, z - 1);
    var v := a[..z - 1];
    Client.FindIs(v, '/', i - 1);
    CStrSuffix(a, i);
    assert a[i..] == s[i + 1..];
    assert v[..i - 1] == s[1..i];
  }

  /** A ':' at `j` before the cut '/' at `i`: the port follows it. */
  lemma PortAt(s: string, i: nat, j: nat)
    requires j < i < |s| && s[j] == ':'
    requires forall k :: 1 <= k < i ==> s[k] != '\0'
    requires forall k :: 0 <= k < j ==> s[k] != '\0' && s[k] != ':'
    ensures var t := s[i := '\0'][j := '\0'];
      PortSplit(s[0], s[1..i], Client.CStr(s[i + 1..]))
      == Endpoint(Client.CStr(t[1..]), Client.CStr(t[j + 1..]), Client.CStr(t[i + 1..]))
  {
    var t := s[i := '\0'][j := '\0'];
    assert t[i + 1..] == s[i + 1..];
    if j == 0 {
      assert t[1..] == s[i := '\0'][1..];
      CutHost(s, i);
    } else {
      var host := s[1..i];
      Client.FindIs(host, ':', j - 1);
      CStrBetween(t, 1, j);
      CStrBetween(t, j + 1, i);
      assert t[1..j] == host[..j - 1];
      assert t[j + 1..i] == host[j..];
    }
  }

  /** The C string of `s[i := '\0']` after its first character is the
      host `s[1..i]`. */
  lemma CutHost(s: string, i: nat)
    requires 1 <= i < |s| && forall k :: 1 <= k < i ==> s[k] != '\0'
    ensures Client.CStr(s[i := '\0'][1..]) == s[1..i]
  {
    CStrBetween(s[i := '\0'], 1, i);
  }

  /** A C string starting at `from` and ending at `to`. */
  lemma CStrBetween(t: string, from: nat, to: nat)
    requires from <= to < |t| && t[to] == '\0'
    requires forall k :: from <= k < to ==> t[k] != '\0'
    ensures Client.CStr(t[from..]) == t[from..to]
  {
    Client.CStrAt(t[from..], to - from);
    assert t[from..][..to - from] == t[from..to];
  }

  /** No ':' before the cut '/' at `i`: the port is "80". */
  lemma NoPort(s: string, i: nat, j: nat)
    requires j <= i < |s| && s[i] == '/' && (j < i ==> s[j] == '\0')
    requires forall k :: 1 <= k < i ==> s[k] != '\0'
    requires forall k :: 0 <= k < j ==> s[k] != '\0' && s[k] != ':'
    requires 1 <= i && (j == 0 || j == i)
    ensures var t := s[i := '\0'];
      PortSplit(s[0], s[1..i], Client.CStr(s[i + 1..]))
      == Endpoint(Client.CStr(t[1..]), "80", Client.CStr(t[i + 1..]))
  {
    var t := s[i := '\0'];
    var host := s[1..i];
    assert t[i + 1..] == s[i + 1..];
    CutHost(s, i);
    if j == i {
      Client.FindIs(host, ':', |host|);
    }
  }

  /** The request handling of main with the corrected receive limit: the
      target goes into `requestStr`, which is then split in place; the
      result is what main connects to, or nothing when the request is
      refused. */
  method AcceptRequest(received: string, req: array<char>) returns (r: Option<Endpoint>)
    requires |received| <= FixedRecvLimit && req.Length == MaxUrlLen
    modifies req
    ensures RequestPath(received).None? ==> r.None?
    ensures RequestPath(received).Some? ==> r == Split(StrNCpy(RequestPath(received).value, MaxUrlLen))
  {
    var ok := ReadRequest(received, req);
    if !ok {
      return None;
    }
    RequestTerminated(received);
    assert req[MaxUrlLen - 1] == '\0';
    var found, port, pathAt := SplitRequest(req);
    if !found {
      return None;
    }
    var portStr := if port.Some? then Client.CStr(req[port.value..]) else "80";
    r := Some(Endpoint(Client.CStr(req[1..]), portStr, Client.CStr(req[pathAt..])));
  }
}
