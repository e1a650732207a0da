/**
  Routes of the layer 3 forwarder: matching a destination address against subnets, and the set
  of hosts the flow cache is filled with before traffic starts.
 */
module L3fwdRoutes {
  import opened Basics

  const ADDRESSES := 0x1_0000_0000

  function Pow2(n: nat): (p: nat)
    ensures p > 0
  {
    if n == 0 then 1 else 2 * Pow2(n - 1)
  }

  lemma {:induction false} Pow2Add(a: nat, b: nat)
    ensures Pow2(a + b) == Pow2(a) * Pow2(b)
    decreases a
  {
    if a > 0 { Pow2Add(a - 1, b); }
  }

  /** A route to a subnet with a prefix of 1 to 31 bits. */
  datatype Route = Route(addr: nat, depth: nat, oif: int) {
    predicate InRange() { addr < ADDRESSES && 1 <= depth <= 31 }

    /** Number of addresses in the subnet. */
    function Hosts(): (n: nat)
      requires InRange()
      ensures n > 0
    {
      Pow2(32 - depth)
    }

    /** The address is in the subnet: with all but the prefix masked out it is the subnet's address. */
    predicate Matches(ip: nat)
      requires InRange()
    {
      addr == ip - ip % Hosts()
    }

    /** No bits beyond the prefix are set. */
    predicate Canonical()
      requires InRange()
    {
      addr % Hosts() == 0
    }
  }

  type Table = rs: seq<Route> | forall i :: 0 <= i < |rs| ==> rs[i].InRange()

  lemma ModRange(ip: nat, addr: nat, h: nat)
    requires h > 0 && addr % h == 0
    ensures addr == ip - ip % h <==> addr <= ip < addr + h
  {
    DivDef(addr, h);
    DivDef(ip, h);
    if addr <= ip < addr + h { DivUnique(ip, h, addr / h, ip - addr); }
  }

  lemma DivUnique(x: nat, h: nat, q: nat, r: nat)
    requires h > 0 && x == q * h + r && r < h
    ensures x / h == q && x % h == r
  {
    var q', r' := x / h, x % h;
    assert x == q' * h + r' && r' < h by { DivDef(x, h); }
    if q < q' {
      MulLe(q + 1, q', h);
    } else if q' < q {
      MulLe(q' + 1, q, h);
    }
  }

  lemma DivDef(x: nat, h: nat)
    requires h > 0
    ensures x == x / h * h + x % h && x % h < h
  {
  }

  lemma MulLe(a: nat, b: nat, h: nat)
    requires a <= b
    ensures a * h <= b * h
  {
  }

  /** A multiple of h below n * h is at least h below it. */
  lemma MultipleFits(addr: nat, n: nat, h: nat)
    requires h > 0 && addr % h == 0 && addr < n * h
    ensures addr + h <= n * h
  {
    var q := addr / h;
    DivDef(addr, h);
    if q >= n { MulLe(n, q, h); }
    MulLe(q + 1, n, h);
    assert (q + 1) * h == q * h + h;
  }

  /** A canonical subnet matches exactly its hosts, which do not wrap around. */
  lemma MatchesHosts(r: Route, ip: nat)
    requires r.InRange() && r.Canonical()
    ensures r.Matches(ip) <==> r.addr <= ip < r.addr + r.Hosts()
    ensures r.addr + r.Hosts() <= ADDRESSES
  {
    ModRange(ip, r.addr, r.Hosts());
    Pow2Add(r.depth, 32 - r.depth);
    Pow32();
    hide Pow2;
    MultipleFits(r.addr, Pow2(r.depth), r.Hosts());
  }

  /** Bit k of an address, from the least significant one. */
  function Bit(x: nat, k: nat): (b: nat)
    ensures b < 2
    decreases k
  {
    if k == 0 then x % 2 else Bit(x / 2, k - 1)
  }

  /** x is y with its n lowest bits cleared, as numbers of w bits. */
  ghost predicate Cleared(x: nat, y: nat, n: nat, w: nat) {
    forall k :: 0 <= k < w ==> Bit(x, k) == if k < n then 0 else Bit(y, k)
  }

  lemma HalfMod(y: nat, n: nat)
    requires n > 0
    ensures y % Pow2(n) == 2 * (y / 2 % Pow2(n - 1)) + y % 2
  {
    hide Pow2;
    assert Pow2(n) == 2 * Pow2(n - 1) by { PowStep(n); }
    var h, q, r := Pow2(n - 1), y / 2 / Pow2(n - 1), y / 2 % Pow2(n - 1);
    DivDef(y / 2, h);
    assert y == q * (2 * h) + (2 * r + y % 2);
    DivUnique(y, 2 * h, q, 2 * r + y % 2);
  }

  lemma PowStep(n: nat)
    requires n > 0
    ensures Pow2(n) == 2 * Pow2(n - 1)
  {
  }

  lemma ClearedStep(x: nat, y: nat, n: nat, w: nat)
    requires w > 0
    ensures Cleared(x, y, n, w) <==>
            x % 2 == (if n > 0 then 0 else y % 2) && Cleared(x / 2, y / 2, if n > 0 then n - 1 else 0, w - 1)
  {
    var m := if n > 0 then n - 1 else 0;
    if Cleared(x, y, n, w) {
      assert Bit(x, 0) == if 0 < n then 0 else Bit(y, 0);
      forall k | 0 <= k < w - 1 ensures Bit(x / 2, k) == if k < m then 0 else Bit(y / 2, k) {
        assert Bit(x, k + 1) == if k + 1 < n then 0 else Bit(y, k + 1);
      }
    }
    if Cleared(x / 2, y / 2, m, w - 1) {
      forall k | 0 < k < w ensures Bit(x, k) == if k < n then 0 else Bit(y, k) {
        assert Bit(x / 2, k - 1) == if k - 1 < m then 0 else Bit(y / 2, k - 1);
      }
    }
  }

  lemma {:induction false} ClearedIs(x: nat, y: nat, n: nat, w: nat)
    requires n <= w && x < Pow2(w) && y < Pow2(w)
    ensures x == y - y % Pow2(n) <==> Cleared(x, y, n, w)
    decreases w
  {
    if w > 0 {
      ClearedStep(x, y, n, w);
      PowStep(w);
      if n > 0 { HalfMod(y, n); }
      hide Cleared, Pow2;
      ClearedIs(x / 2, y / 2, if n > 0 then n - 1 else 0, w - 1);
    }
  }

  /** A route matches the addresses that agree with its own in the prefix, if its own has no other bits. */
  lemma MatchesBits(r: Route, ip: nat)
    requires r.InRange() && ip < ADDRESSES
    ensures r.Matches(ip) <==> Cleared(r.addr, ip, 32 - r.depth, 32)
  {
    hide Pow2, Bit;
    Pow32();
    ClearedIs(r.addr, ip, 32 - r.depth, 32);
  }

  lemma Pow32()
    ensures Pow2(32) == ADDRESSES
  {
    assert Pow2(8) == 256;
    Pow2Add(8, 8);
    Pow2Add(16, 16);
  }

  /** A subnet with bits beyond its prefix matches nothing, not even its own address. */
  lemma NonCanonicalMatchesNothing(r: Route, ip: nat)
    requires r.InRange() && !r.Canonical()
    ensures !r.Matches(ip)
  {
    var h := r.Hosts();
    DivDef(ip, h);
    if r.Matches(ip) { DivUnique(r.addr, h, ip / h, 0); }
  }

  /** The first matching route, from k on. */
  function FirstFrom(rs: Table, ip: nat, k: nat): (r: Option<nat>)
    requires k <= |rs|
    decreases |rs| - k
  {
    if k == |rs| then None else if rs[k].Matches(ip) then Some(k) else FirstFrom(rs, ip, k + 1)
  }

  function FirstMatch(rs: Table, ip: nat): (r: Option<nat>) { FirstFrom(rs, ip, 0) }

  lemma {:induction false} FirstIs(rs: Table, ip: nat, k: nat, j: nat)
    requires k <= j < |rs| && rs[j].Matches(ip) && forall i :: k <= i < j ==> !rs[i].Matches(ip)
    ensures FirstFrom(rs, ip, k) == Some(j)
    decreases j - k
  {
    if k < j { FirstIs(rs, ip, k + 1, j); }
  }

  /** A cached flow: destination address and route. */
  datatype Flow = Flow(key: nat, entry: nat)

  predicate HasKey(fs: seq<Flow>, key: nat) { exists i :: 0 <= i < |fs| && fs[i].key == key }

  /** A host of a route; addresses are computed modulo 2^32. */
  function Host(r: Route, i: nat): (ip: nat)
    ensures ip < ADDRESSES
  {
    (r.addr + i) % ADDRESSES
  }

  /**
    The flows the cache is filled with: all hosts of all routes in turn, until a host is already
    there or the store is full.
   */
  function Warm(rs: Table, r: nat, i: nat, room: nat, fs: seq<Flow>): (res: seq<Flow>)
    requires r <= |rs| && (r < |rs| ==> i <= rs[r].Hosts())
    decreases |rs| - r, if r < |rs| then rs[r].Hosts() - i else 0
  {
    if r == |rs| then fs
    else if i == rs[r].Hosts() then Warm(rs, r + 1, 0, room, fs)
    else
      var ip := Host(rs[r], i);
      if HasKey(fs, ip) || |fs| >= room then fs else Warm(rs, r, i + 1, room, fs + [Flow(ip, r)])
  }

  /** Every flow leads to the first matching route. */
  ghost predicate Right(rs: Table, fs: seq<Flow>) {
    forall i :: 0 <= i < |fs| ==> FirstMatch(rs, fs[i].key) == Some(fs[i].entry)
  }

  /** The first k routes have no bits beyond their prefix. */
  ghost predicate CanonicalUpto(rs: Table, k: nat)
    requires k <= |rs|
  {
    forall i :: 0 <= i < k ==> rs[i].Canonical()
  }

  /** The address is among the first n hosts of the route. */
  predicate Among(r: Route, n: nat, ip: nat) { r.addr <= ip < r.addr + n }

  /** All hosts of the earlier routes, and the first i of route r, are there. */
  ghost predicate Filled(rs: Table, r: nat, i: nat, fs: seq<Flow>)
    requires r <= |rs|
  {
    && (forall k, key :: 0 <= k < r && Among(rs[k], rs[k].Hosts(), key) ==> HasKey(fs, key))
    && (r < |rs| ==> forall key :: Among(rs[r], i, key) ==> HasKey(fs, key))
  }

  lemma HasKeyGrows(fs: seq<Flow>, f: Flow, key: nat)
    ensures HasKey(fs + [f], key) <==> HasKey(fs, key) || key == f.key
  {
    if HasKey(fs, key) {
      var i :| 0 <= i < |fs| && fs[i].key == key;
      assert (fs + [f])[i].key == key;
    }
    if key == f.key { assert (fs + [f])[|fs|].key == key; }
  }

  /** A host that is not there yet is not covered by an earlier route. */
  lemma NewHostFirst(rs: Table, r: nat, i: nat, fs: seq<Flow>)
    requires r < |rs| && CanonicalUpto(rs, r + 1) && i < rs[r].Hosts() && Filled(rs, r, i, fs)
    requires !HasKey(fs, rs[r].addr + i)
    ensures FirstMatch(rs, rs[r].addr + i) == Some(r)
  {
    var ip := rs[r].addr + i;
    MatchesHosts(rs[r], ip);
    forall k | 0 <= k < r ensures !rs[k].Matches(ip) {
      MatchesHosts(rs[k], ip);
      assert !Among(rs[k], rs[k].Hosts(), ip);
    }
    FirstIs(rs, ip, 0, r);
  }

  /** What the whole cache is filled with. */
  function Warmed(rs: Table, room: nat): (fs: seq<Flow>) { Warm(rs, 0, 0, room, []) }

  lemma {:induction false} WarmExtends(rs: Table, r: nat, i: nat, room: nat, fs: seq<Flow>)
    requires r <= |rs| && (r < |rs| ==> i <= rs[r].Hosts())
    ensures fs <= Warm(rs, r, i, room, fs)
    decreases |rs| - r, if r < |rs| then rs[r].Hosts() - i else 0
  {
    hide HasKey;
    if r < |rs| {
      if i == rs[r].Hosts() {
        WarmExtends(rs, r + 1, 0, room, fs);
      } else if !HasKey(fs, Host(rs[r], i)) && |fs| < room {
        WarmExtends(rs, r, i + 1, room, fs + [Flow(Host(rs[r], i), r)]);
      }
    }
  }

  /** Number of hosts of the first routes. */
  function Total(rs: Table, k: nat): (n: nat)
    requires k <= |rs|
  {
    if k == 0 then 0 else Total(rs, k - 1) + rs[k - 1].Hosts()
  }

  lemma {:induction false} TotalGrows(rs: Table, j: nat, k: nat)
    requires j <= k <= |rs|
    ensures Total(rs, j) <= Total(rs, k)
    decreases k - j
  {
    if j < k { TotalGrows(rs, j, k - 1); }
  }

  /** The address is a host of one of the first routes. */
  ghost predicate HostBefore(rs: Table, k: nat, ip: nat)
    requires k <= |rs|
  {
    exists a :: 0 <= a < k && Among(rs[a], rs[a].Hosts(), ip)
  }

  /** Two of the first routes have a host in common. */
  ghost predicate Shared(rs: Table, k: nat)
    requires k <= |rs|
  {
    exists b, ip :: 0 <= b < k && Among(rs[b], rs[b].Hosts(), ip) && HostBefore(rs, b, ip)
  }

  /** Filling ends before the first host of route k is stored. */
  ghost predicate EndsBefore(rs: Table, k: nat, room: nat)
    requires k < |rs|
  {
    Shared(rs, k) || HostBefore(rs, k, rs[k].addr) || Total(rs, k) >= room
  }

  /** The flows are right, and exactly those of the hosts so far, which are all different. */
  ghost predicate Track(rs: Table, r: nat, i: nat, fs: seq<Flow>)
    requires r <= |rs|
  {
    && Right(rs, fs) && Filled(rs, r, i, fs) && |fs| == Total(rs, r) + i && !Shared(rs, r)
    && (forall key :: HasKey(fs, key) ==> HostBefore(rs, r, key) || (r < |rs| && Among(rs[r], i, key)))
    && (r < |rs| ==> forall key :: Among(rs[r], i, key) ==> !HostBefore(rs, r, key))
  }

  lemma FilledBefore(rs: Table, r: nat, i: nat, fs: seq<Flow>, key: nat)
    requires r <= |rs| && Filled(rs, r, i, fs) && HostBefore(rs, r, key)
    ensures HasKey(fs, key)
  {
  }

  /** After all hosts of a route. */
  lemma TrackRoute(rs: Table, r: nat, fs: seq<Flow>)
    requires r < |rs| && Track(rs, r, rs[r].Hosts(), fs)
    ensures Track(rs, r + 1, 0, fs)
  {
    hide Right, HasKey, Route.Hosts;
    forall key ensures HostBefore(rs, r + 1, key) <==> HostBefore(rs, r, key) || Among(rs[r], rs[r].Hosts(), key) {}
  }

  /** After one more host. */
  lemma TrackHost(rs: Table, r: nat, i: nat, fs: seq<Flow>)
    requires r < |rs| && CanonicalUpto(rs, r + 1) && i < rs[r].Hosts() && Track(rs, r, i, fs) &&
        !HasKey(fs, rs[r].addr + i)
    ensures Track(rs, r, i + 1, fs + [Flow(rs[r].addr + i, r)])
  {
    var ip := rs[r].addr + i;
    var fs' := fs + [Flow(ip, r)];
    NewHostFirst(rs, r, i, fs);
    hide HasKey, FirstMatch, Route.Hosts, CanonicalUpto, HostBefore, Shared;
    forall key ensures HasKey(fs', key) <==> HasKey(fs, key) || key == ip { HasKeyGrows(fs, Flow(ip, r), key); }
    if HostBefore(rs, r, ip) { FilledBefore(rs, r, i, fs, ip); }
  }

  /** A host of a route with bits beyond its prefix is a wrong flow. */
  lemma OddWrong(rs: Table, k: nat, room: nat, fs: seq<Flow>)
    requires k < |rs| && !rs[k].Canonical() && !HasKey(fs, rs[k].addr) && |fs| < room
    ensures !Right(rs, Warm(rs, k, 0, room, fs))
  {
    hide HasKey, Pow2, FirstFrom;
    var f := Flow(rs[k].addr, k);
    assert Host(rs[k], 0) == rs[k].addr;
    WarmExtends(rs, k, 1, room, fs + [f]);
    var res := Warm(rs, k, 0, room, fs);
    assert res[|fs|] == (fs + [f])[|fs|] == f;
    NonCanonicalMatchesNothing(rs[k], rs[k].addr);
    FirstMatches(rs, rs[k].addr, 0);
  }

  lemma {:induction false} FirstMatches(rs: Table, ip: nat, k: nat)
    requires k <= |rs|
    ensures var m := FirstFrom(rs, ip, k); m.Some? ==> m.value < |rs| && rs[m.value].Matches(ip)
    decreases |rs| - k
  {
    if k < |rs| && !rs[k].Matches(ip) { FirstMatches(rs, ip, k + 1); }
  }

  /** The index of the first route with bits beyond its prefix, or the number of routes. */
  function FirstOdd(rs: Table): (k: nat)
    ensures k <= |rs| && (k < |rs| ==> !rs[k].Canonical())
    ensures forall i :: 0 <= i < k ==> rs[i].Canonical()
  {
    OddFrom(rs, 0)
  }

  function OddFrom(rs: Table, k: nat): (n: nat)
    requires k <= |rs| && forall i :: 0 <= i < k ==> rs[i].Canonical()
    ensures k <= n <= |rs| && (n < |rs| ==> !rs[n].Canonical())
    ensures forall i :: 0 <= i < n ==> rs[i].Canonical()
    decreases |rs| - k
  {
    if k == |rs| || !rs[k].Canonical() then k else OddFrom(rs, k + 1)
  }

  /** Where the filling stops among the canonical routes, two of them share a host or the store is full. */
  lemma StopsEarly(rs: Table, r: nat, i: nat, k: nat, room: nat, fs: seq<Flow>)
    requires r < k < |rs| && i < rs[r].Hosts() && Track(rs, r, i, fs)
    requires HasKey(fs, rs[r].addr + i) || |fs| >= room
    ensures EndsBefore(rs, k, room)
  {
    hide HasKey, Right, Filled, Route.Hosts;
    if |fs| >= room {
      TotalGrows(rs, r + 1, k);
    } else {
      var ip := rs[r].addr + i;
      assert HostBefore(rs, r, ip) && Among(rs[r], rs[r].Hosts(), ip);
    }
  }

  /** One step of the filling. */
  lemma WarmStep(rs: Table, r: nat, i: nat, room: nat, fs: seq<Flow>)
    requires r <= |rs| && (r < |rs| ==> i <= rs[r].Hosts())
    ensures r == |rs| ==> Warm(rs, r, i, room, fs) == fs
    ensures r < |rs| && i == rs[r].Hosts() ==> Warm(rs, r, i, room, fs) == Warm(rs, r + 1, 0, room, fs)
    ensures r < |rs| && i < rs[r].Hosts() ==>
              var ip := Host(rs[r], i);
              Warm(rs, r, i, room, fs) == if HasKey(fs, ip) || |fs| >= room then fs
                  else Warm(rs, r, i + 1, room, fs + [Flow(ip, r)])
  {
    hide HasKey, Route.Hosts;
  }

  lemma {:induction false} WarmRightFrom(rs: Table, r: nat, i: nat, room: nat, fs: seq<Flow>)
    requires r <= FirstOdd(rs) && (r < FirstOdd(rs) ==> i <= rs[r].Hosts()) && (r == FirstOdd(rs) ==> i == 0) &&
        Track(rs, r, i, fs)
    ensures Right(rs, Warm(rs, r, i, room, fs)) <==> (FirstOdd(rs) < |rs| ==> EndsBefore(rs, FirstOdd(rs), room))
    decreases |rs| - r, if r < |rs| then rs[r].Hosts() - i else 0
  {
    hide HasKey, Route.Hosts, Route.Canonical, EndsBefore, Filled, Warm, Total, Right, HostBefore, Shared;
    var k := FirstOdd(rs);
    WarmStep(rs, r, i, room, fs);
    if r == k {
      if k < |rs| { AtOdd(rs, k, room, fs); }
    } else if i == rs[r].Hosts() {
      TrackRoute(rs, r, fs);
      WarmRightFrom(rs, r + 1, 0, room, fs);
    } else {
      MatchesHosts(rs[r], rs[r].addr + i);
      if HasKey(fs, rs[r].addr + i) || |fs| >= room {
        if k < |rs| { StopsEarly(rs, r, i, k, room, fs); }
      } else {
        TrackHost(rs, r, i, fs);
        WarmRightFrom(rs, r, i + 1, room, fs + [Flow(rs[r].addr + i, r)]);
      }
    }
  }

  /** When the first route with bits beyond its prefix is reached. */
  lemma AtOdd(rs: Table, k: nat, room: nat, fs: seq<Flow>)
    requires k < |rs| && !rs[k].Canonical() && Track(rs, k, 0, fs)
    ensures Right(rs, Warm(rs, k, 0, room, fs)) <==> EndsBefore(rs, k, room)
  {
    hide HasKey, FirstMatch, Route.Canonical, HostBefore, Shared, Filled, Right;
    assert Host(rs[k], 0) == rs[k].addr;
    if HasKey(fs, rs[k].addr) || |fs| >= room {
    } else {
      if HostBefore(rs, k, rs[k].addr) { FilledBefore(rs, k, 0, fs, rs[k].addr); }
      OddWrong(rs, k, room, fs);
    }
  }

  /** With canonical subnets the cache is filled with right flows only. */
  lemma WarmRight(rs: Table, room: nat)
    requires CanonicalUpto(rs, |rs|)
    ensures Right(rs, Warmed(rs, room))
  {
    WarmedRightIff(rs, room);
  }

  /**
    The cache starts out right if and only if all routes are canonical, or filling ends before
    the first one that is not: because two routes before it share a host, because its address is
    a host of one of them, or because the store is full.
   */
  lemma WarmedRightIff(rs: Table, room: nat)
    ensures Right(rs, Warmed(rs, room)) <==> (FirstOdd(rs) < |rs| ==> EndsBefore(rs, FirstOdd(rs), room))
  {
    hide Route.Canonical;
    WarmRightFrom(rs, 0, 0, room, []);
  }

  /** A shared host of the first routes is one of all routes. */
  lemma SharedGrows(rs: Table, j: nat, k: nat)
    requires j <= k <= |rs| && Shared(rs, j)
    ensures Shared(rs, k)
  {
    hide HostBefore, Route.Hosts, Among;
  }

  lemma {:induction false} WarmFillsFrom(rs: Table, r: nat, i: nat, room: nat, fs: seq<Flow>)
    requires CanonicalUpto(rs, |rs|) && !Shared(rs, |rs|) && Total(rs, |rs|) <= room
    requires r <= |rs| && (if r < |rs| then i <= rs[r].Hosts() else i == 0) && Track(rs, r, i, fs)
    ensures Track(rs, |rs|, 0, Warm(rs, r, i, room, fs))
    decreases |rs| - r, if r < |rs| then rs[r].Hosts() - i else 0
  {
    hide HasKey, Route.Hosts, Route.Canonical, Filled, Warm, Right, HostBefore, Shared;
    WarmStep(rs, r, i, room, fs);
    if r < |rs| {
      if i == rs[r].Hosts() {
        TrackRoute(rs, r, fs);
        WarmFillsFrom(rs, r + 1, 0, room, fs);
      } else {
        MatchesHosts(rs[r], rs[r].addr + i);
        if HasKey(fs, rs[r].addr + i) { AlreadyShared(rs, r, i, fs); }
        TotalGrows(rs, r + 1, |rs|);
        TrackHost(rs, r, i, fs);
        WarmFillsFrom(rs, r, i + 1, room, fs + [Flow(rs[r].addr + i, r)]);
      }
    }
  }

  /** A host that is there already is shared with an earlier route. */
  lemma AlreadyShared(rs: Table, r: nat, i: nat, fs: seq<Flow>)
    requires r < |rs| && i < rs[r].Hosts() && Track(rs, r, i, fs) && HasKey(fs, rs[r].addr + i)
    ensures Shared(rs, |rs|)
  {
    hide HasKey, Right, Filled, Route.Hosts;
    var ip := rs[r].addr + i;
    assert HostBefore(rs, r, ip) && Among(rs[r], rs[r].Hosts(), ip);
    assert Shared(rs, r + 1);
    SharedGrows(rs, r + 1, |rs|);
  }

  /** With canonical subnets that share no host, and room for all, exactly the hosts of all routes are stored. */
  lemma WarmedAll(rs: Table, room: nat)
    requires CanonicalUpto(rs, |rs|) && !Shared(rs, |rs|) && Total(rs, |rs|) <= room
    ensures Right(rs, Warmed(rs, room)) && |Warmed(rs, room)| == Total(rs, |rs|)
    ensures forall ip :: HasKey(Warmed(rs, room), ip) <==> HostBefore(rs, |rs|, ip)
  {
    WarmFillsFrom(rs, 0, 0, room, []);
    var fs := Warmed(rs, room);
    hide HasKey, HostBefore, Right, Shared, Warm, Warmed;
    forall ip ensures HasKey(fs, ip) <==> HostBefore(rs, |rs|, ip) {
      if HostBefore(rs, |rs|, ip) { FilledBefore(rs, |rs|, 0, fs, ip); }
    }
  }

  /** A single route with bits beyond its prefix makes the cache wrong. */
  lemma OddExample()
    ensures var rs: Table := [Route(1, 31, 0)]; !Right(rs, Warmed(rs, 1))
  {
    var rs: Table := [Route(1, 31, 0)];
    assert Pow2(1) == 2 && !rs[0].Canonical();
    assert FirstOdd(rs) == 0;
    hide Warmed, Right;
    WarmedRightIff(rs, 1);
  }
}
