/**
  The forwarding loop for one burst of packets: packets with errors are dropped, every other one
  is forwarded once (which decrements its TTL), and runs of packets for the same port are sent
  together.
 */
module L3fwdBurst {
  import opened Fates

  /** A packet: whether it is to be dropped, its destination, and how often it has been forwarded. */
  datatype Pkt = Pkt(id: int, bad: bool, dst: nat, hops: nat)

  /** Packets that are kept and packets that are dropped, in order. */
  function Good(s: seq<Pkt>): (r: seq<Pkt>) {
    if s == [] then [] else Good(s[..|s| - 1]) + if s[|s| - 1].bad then [] else [s[|s| - 1]]
  }

  function Bad(s: seq<Pkt>): (r: seq<Pkt>) {
    if s == [] then [] else Bad(s[..|s| - 1]) + if s[|s| - 1].bad then [s[|s| - 1]] else []
  }

  lemma {:induction false} GoodBad(s: seq<Pkt>)
    ensures multiset(Good(s)) + multiset(Bad(s)) == multiset(s) && |Good(s)| + |Bad(s)| == |s|
    decreases |s|
  {
    if s == [] {
      assert Good(s) == [] && Bad(s) == [];
    } else {
      hide Good, Bad;
      var n := |s| - 1;
      assert s[..n + 1] == s && s == s[..n] + [s[n]];
      GoodBad(s[..n]);
      GoodStep(s, n);
      DealOne(s[..n], s[n], Good(s[..n]), Bad(s[..n]), Good(s), Bad(s));
    }
  }

  /** A packet after the forwarding function was applied to it. */
  function Forwarded(p: Pkt): (q: Pkt) { p.(hops := p.hops + 1) }

  function AllForwarded(s: seq<Pkt>): (r: seq<Pkt>)
    ensures |r| == |s| && forall i :: 0 <= i < |s| ==> r[i] == Forwarded(s[i])
    ensures forall i :: 0 <= i < |s| ==> r[i] == Pkt(s[i].id, s[i].bad, s[i].dst, s[i].hops + 1)
  {
    seq(|s|, i requires 0 <= i < |s| => Forwarded(s[i]))
  }

  lemma GoodStep(s: seq<Pkt>, i: nat)
    requires i < |s|
    ensures Good(s[..i + 1]) == Good(s[..i]) + if s[i].bad then [] else [s[i]]
    ensures Bad(s[..i + 1]) == Bad(s[..i]) + if s[i].bad then [s[i]] else []
  {
    assert s[..i + 1][..i] == s[..i];
  }

  class Worker {
    const out: Queues<Pkt>
    const route: (nat, nat) -> nat
    var packets: nat
    var rxDrops: nat
    var txDrops: nat
    var rxFreed: seq<Pkt>

    constructor (route: (nat, nat) -> nat)
      ensures packets == rxDrops == txDrops == 0 && rxFreed == [] && fresh(out) && out.contents == map[] &&
          out.freed == []
    {
      this.route := route;
      out := new Queues();
      packets, rxDrops, txDrops, rxFreed := 0, 0, 0, [];
    }

    /** Drop bad packets and move the others together. */
    method DropErrPkts(tbl: array<Pkt>, num: nat) returns (dropped: nat)
      requires num <= tbl.Length
      modifies tbl, `rxFreed
      ensures dropped == |Bad(old(tbl[..num]))| && dropped <= num && tbl[..num - dropped] == Good(old(tbl[..num]))
      ensures rxFreed == old(rxFreed) + Bad(old(tbl[..num]))
    {
      hide Good, Bad;
      ghost var input := tbl[..num];
      dropped := 0;
      var j := 0;
      NothingYet(input);
      for i := 0 to num
        invariant j + dropped == i && tbl[..j] == Good(input[..i])
        invariant dropped == |Bad(input[..i])| && rxFreed == old(rxFreed) + Bad(input[..i])
        invariant forall k :: i <= k < tbl.Length ==> tbl[k] == old(tbl[k])
      {
        var pkt := tbl[i];
        GoodStep(input, i);
        if pkt.bad {
          rxFreed := rxFreed + [pkt];
          dropped := dropped + 1;
        } else {
          if i != j { tbl[j] := pkt; }
          j := j + 1;
          assert tbl[..j] == tbl[..j - 1] + [pkt];
        }
      }
      assert input[..num] == input;
    }

    /** Apply the forwarding function to a packet. */
    method FwdFunc(tbl: array<Pkt>, i: nat, sif: nat) returns (dif: nat)
      requires i < tbl.Length
      modifies tbl
      ensures tbl[i] == Forwarded(old(tbl[i])) && dif == route(tbl[i].dst, sif)
      ensures tbl[i].hops == old(tbl[i].hops) + 1 && tbl[i].id == old(tbl[i].id) && tbl[i].dst == old(tbl[i].dst)
      ensures forall k :: 0 <= k < tbl.Length && k != i ==> tbl[k] == old(tbl[k])
    {
      tbl[i] := Forwarded(tbl[i]);
      dif := route(tbl[i].dst, sif);
    }

    /** Forward the packets of a run up to the first one for another port. */
    method FwdRun(tbl: array<Pkt>, from: nat, to: nat, sif: nat, dstPort: nat) returns (i: nat, dif: nat)
      requires from < to <= tbl.Length && route(tbl[from].dst, sif) == dstPort
      modifies tbl
      ensures from < i <= to && (i == to ==> dif == dstPort) && (i < to ==> dif == route(tbl[i].dst, sif) != dstPort)
      ensures forall k :: from <= k < i ==> route(tbl[k].dst, sif) == dstPort
      ensures forall k :: 0 <= k < tbl.Length && !(from < k <= i && k < to) ==> tbl[k] == old(tbl[k])
      ensures forall k :: from < k <= i && k < to ==> tbl[k] == Forwarded(old(tbl[k]))
    {
      i, dif := from + 1, dstPort;
      while i < to
        invariant from < i <= to && dif == dstPort
        invariant forall k :: from <= k < i ==> route(tbl[k].dst, sif) == dstPort
        invariant forall k :: 0 <= k < tbl.Length && !(from < k < i) ==> tbl[k] == old(tbl[k])
        invariant forall k :: from < k < i ==> tbl[k] == Forwarded(old(tbl[k]))
      {
        dif := FwdFunc(tbl, i, sif);
        if dif != dstPort { break; }
        i := i + 1;
      }
    }

    /** The port of a packet received on interface sif. */
    function Port(sif: nat): (f: Pkt -> nat) { (p: Pkt) => route(p.dst, sif) }

    /** The ports of packets received on interface sif. */
    function Ports(s: seq<Pkt>, sif: nat): (d: seq<nat>)
      ensures |d| == |s| && forall i :: 0 <= i < |s| ==> d[i] == route(s[i].dst, sif)
    {
      seq<nat>(|s|, i requires 0 <= i < |s| => route(s[i].dst, sif))
    }

    /** What the ports gained: packets that the routes send there. */
    ghost predicate Sent(before: Contents<Pkt>, after: Contents<Pkt>, sif: nat) {
      forall q: nat :: In(before, q) <= In(after, q) && SentTo(In(after, q), |In(before, q)|, sif, q)
    }

    ghost predicate SentTo(s: seq<Pkt>, from: nat, sif: nat, q: nat) {
      forall j :: from <= j < |s| ==> route(s[j].dst, sif) == q
    }

    lemma OwnSent(before: Contents<Pkt>, after: Contents<Pkt>, freed: seq<Pkt>, freed': seq<Pkt>, s: seq<Pkt>,
        fate: Fate, sif: nat)
      requires Settled(before, after, freed, freed', s, fate) && Own(s, fate, Port(sif))
      ensures Sent(before, after, sif)
      ensures forall i :: 0 <= i < |s| && fate[i].Some? ==> fate[i].value == route(s[i].dst, sif)
    {
      hide Picked, Refused, In;
      forall q: nat ensures In(before, q) <= In(after, q) && SentTo(In(after, q), |In(before, q)|, sif, q) {
        assert In(after, q) == In(before, q) + Picked(s, fate, q);
        forall j | |In(before, q)| <= j < |In(after, q)| ensures route(In(after, q)[j].dst, sif) == q {
          var i := PickedFrom(s, fate, q, j - |In(before, q)|);
        }
      }
    }

    /** Forward the rest of a run and send it; the packet behind it is forwarded as well. */
    method SendRun(tbl: array<Pkt>, b: nat, pkts: nat, sif: nat, dstPort: nat, willing: nat -> int, calls: nat,
                   ghost all: seq<Pkt>, ghost before: Contents<Pkt>, ghost freed: seq<Pkt>, ghost fate: Fate)
      returns (i: nat, dif: nat, ghost fate': Fate)
      requires b < pkts <= tbl.Length && |all| == pkts && tbl[b] == all[b] && dstPort == route(all[b].dst, sif)
      requires forall k :: b < k < pkts ==> Forwarded(tbl[k]) == all[k]
      requires Settled(before, out.contents, freed, out.freed, all[..b], fate) && Own(all[..b], fate, Port(sif)) &&
          |fate| == b
      requires Offered(all, sif, fate, willing, calls)
      modifies tbl, `txDrops, out
      ensures b < i <= pkts && (i < pkts ==> tbl[i] == all[i] && dif == route(all[i].dst, sif))
      ensures forall k :: i < k < pkts ==> tbl[k] == old(tbl[k])
      ensures Settled(before, out.contents, freed, out.freed, all[..i], fate') && Own(all[..i], fate', Port(sif)) &&
          |fate'| == i
      ensures Offered(all, sif, fate', willing, calls + 1)
      ensures |fate| == b && txDrops - |Refused(all[..i], fate')| == old(txDrops) - |Refused(all[..b], fate)|
    {
      hide Settled, Own, Refused, Prefix, Port, Taken, Offered;
      i, dif := FwdRun(tbl, b, pkts, sif, dstPort);
      var run := tbl[b..i];
      assert run == all[b..i];
      var refused;
      refused, fate' := out.Offer(run, dstPort, willing(calls), before, freed, all[..b], fate);
      AfterRun(all, b, i, fate, sif, dstPort, refused);
      OfferedNext(all, sif, fate, willing, calls, i);
      txDrops := txDrops + refused;
    }

    /** Of the packets up to the beginning of a run, each run was offered to its port in one call. */
    ghost predicate Offered(all: seq<Pkt>, sif: nat, fate: Fate, willing: nat -> int, calls: nat) {
      var d := Ports(all, sif);
      ByRuns(d, fate, willing) &&
      (|fate| < |d| ==> RunNo(d, |fate|) == calls && (|fate| == 0 || d[|fate| - 1] != d[|fate|]))
    }

    lemma OfferedNext(all: seq<Pkt>, sif: nat, fate: Fate, willing: nat -> int, calls: nat, i: nat)
      requires Offered(all, sif, fate, willing, calls) && |fate| < i <= |all|
      requires var p := route(all[|fate|].dst, sif);
               && (forall k :: |fate| <= k < i ==> route(all[k].dst, sif) == p)
               && (i < |all| ==> route(all[i].dst, sif) != p)
      ensures var n, p := i - |fate|, route(all[|fate|].dst, sif);
              Offered(all, sif, fate + Prefix(n, Taken(willing(calls), n), p), willing, calls + 1)
    {
      hide ByRuns, RunNo, Prefix, Taken;
      ByRunsNext(Ports(all, sif), fate, willing, i);
    }

    lemma AfterRun(all: seq<Pkt>, b: nat, i: nat, fate: Fate, sif: nat, dstPort: nat, refused: nat)
      requires b <= i <= |all| && Own(all[..b], fate, Port(sif)) && refused <= i - b
      requires forall k :: b <= k < i ==> route(all[k].dst, sif) == dstPort
      ensures var fate' := fate + Prefix(i - b, i - b - refused, dstPort);
              && |fate| == b && |fate'| == i && all[..b] + all[b..i] == all[..i] && Own(all[..i], fate', Port(sif))
              && |Refused(all[..i], fate')| == |Refused(all[..b], fate)| + refused
    {
      hide Refused, Prefix;
      var run := all[b..i];
      assert all[..b] + run == all[..i];
      OwnRun(all[..b], fate, Port(sif), run, dstPort, |run| - refused);
      RefusedCount(all[..b], fate, run, dstPort, |run| - refused);
    }

    /**
      Forward and send a burst, run by run.  Every packet is forwarded once and offered once, to
      its own port; on every port the order of arrival is kept.
     */
    method SendBurst(tbl: array<Pkt>, pkts: nat, sif: nat, willing: nat -> int) returns (ghost fate: Fate)
      requires 0 < pkts <= tbl.Length
      modifies tbl, `txDrops, out
      ensures var s := AllForwarded(old(tbl[..pkts]));
              && Settled(old(out.contents), out.contents, old(out.freed), out.freed, s, fate) && Own(s, fate, Port(sif))
              && txDrops == old(txDrops) + |Refused(s, fate)| && ByRuns(Ports(s, sif), fate, willing)
    {
      hide Settled, Own, Refused, Prefix, AllForwarded, Offered, ByRuns;
      ghost var all, before, freed := AllForwarded(tbl[..pkts]), out.contents, out.freed;
      SettledNone(before, freed);
      NoneOwn(sif);
      NoneOffered(all, sif, willing);
      fate := [];
      var dif := FwdFunc(tbl, 0, sif);
      var b, calls := 0, 0;
      assert all[..0] == [];
      while b < pkts
        invariant 0 <= b <= pkts && (b < pkts ==> tbl[b] == all[b] && dif == route(all[b].dst, sif))
        invariant forall k :: b < k < pkts ==> Forwarded(tbl[k]) == all[k]
        invariant Settled(before, out.contents, freed, out.freed, all[..b], fate) && Own(all[..b], fate, Port(sif)) &&
            |fate| == b
        invariant txDrops == old(txDrops) + |Refused(all[..b], fate)| && Offered(all, sif, fate, willing, calls)
      {
        var i;
        i, dif, fate := SendRun(tbl, b, pkts, sif, dif, willing, calls, all, before, freed, fate);
        b, calls := i, calls + 1;
      }
      assert all[..pkts] == all;
      assert ByRuns(Ports(all, sif), fate, willing) by { OfferedIs(all, sif, fate, willing, calls); }
    }

    lemma NoneOffered(all: seq<Pkt>, sif: nat, willing: nat -> int)
      ensures Offered(all, sif, [], willing, 0) && ByRuns(Ports(all, sif), [], willing)
    {
      NoneByRuns(Ports(all, sif), willing);
    }

    lemma OfferedIs(all: seq<Pkt>, sif: nat, fate: Fate, willing: nat -> int, calls: nat)
      requires Offered(all, sif, fate, willing, calls)
      ensures ByRuns(Ports(all, sif), fate, willing)
    {
    }

    /** One round of the worker: count, drop, forward and send. */
    method Burst(tbl: array<Pkt>, num: nat, sif: nat, willing: nat -> int) returns (ghost fate: Fate)
      requires num <= tbl.Length
      modifies this, tbl, out
      ensures var s := AllForwarded(Good(old(tbl[..num])));
              && Settled(old(out.contents), out.contents, old(out.freed), out.freed, s, fate) && Own(s, fate, Port(sif))
              && txDrops == old(txDrops) + |Refused(s, fate)| && |s| == |fate| && ByRuns(Ports(s, sif), fate, willing)
              && forall i :: 0 <= i < |s| && fate[i].Some? ==> fate[i].value == route(s[i].dst, sif)
      ensures Sent(old(out.contents), out.contents, sif)
      ensures packets == old(packets) + num && rxDrops == old(rxDrops) + |Bad(old(tbl[..num]))|
      ensures rxFreed == old(rxFreed) + Bad(old(tbl[..num]))
    {
      hide Settled, Own, Refused, AllForwarded, Good, Bad, Sent, ByRuns, Offered;
      ghost var input, before, freed := tbl[..num], out.contents, out.freed;
      SettledNone(out.contents, out.freed);
      NoneOwn(sif);
      NoneForwarded();
      NoneOffered([], sif, willing);
      GoodBad(input);
      fate := [];
      if num < 1 {
        assert Good(input) == [] && Bad(input) == [];
        OwnSent(before, out.contents, freed, out.freed, [], fate, sif);
        return;
      }
      packets := packets + num;
      var drop := DropErrPkts(tbl, num);
      var pkts := num - drop;
      rxDrops := rxDrops + drop;
      if pkts < 1 {
        assert Good(input) == [];
        OwnSent(before, out.contents, freed, out.freed, [], fate, sif);
        return;
      }
      fate := SendBurst(tbl, pkts, sif, willing);
      OwnSent(before, out.contents, freed, out.freed, AllForwarded(Good(input)), fate, sif);
      SettledLengths(before, out.contents, freed, out.freed, AllForwarded(Good(input)), fate);
    }

    lemma NoneOwn(sif: nat)
      ensures Own([], [], Port(sif)) && |Refused<Pkt>([], [])| == 0
    {
    }
  }

  lemma NoneForwarded()
    ensures AllForwarded([]) == []
  {
  }

  /**
    Every received packet is dropped on reception, dropped on transmission, or transmitted, and
    forwarded once unless dropped on reception.
   */
  lemma BurstConserved(s: seq<Pkt>, fate: Fate, port: Pkt -> nat)
    requires Own(AllForwarded(Good(s)), fate, port)
    ensures |s| == |Bad(s)| + |Refused(AllForwarded(Good(s)), fate)| + |Accepted(AllForwarded(Good(s)), fate)|
    ensures multiset(Accepted(AllForwarded(Good(s)), fate)) +
        multiset(Refused(AllForwarded(Good(s)), fate)) == multiset(AllForwarded(Good(s)))
    ensures forall q :: Picked(AllForwarded(Good(s)), fate, q) == Only(Accepted(AllForwarded(Good(s)), fate), port, q)
  {
    var f := AllForwarded(Good(s));
    GoodBad(s);
    FateConserves(f, fate);
    forall q ensures Picked(f, fate, q) == Only(Accepted(f, fate), port, q) { PickedIsOnly(f, fate, port, q); }
  }

  lemma RefusedCount(s: seq<Pkt>, fate: Fate, run: seq<Pkt>, d: nat, r: nat)
    requires |s| == |fate| && r <= |run|
    ensures |Refused(s + run, fate + Prefix(|run|, r, d))| == |Refused(s, fate)| + (|run| - r)
  {
    hide Refused, Picked, Prefix;
    PickedAppend(s, fate, run, Prefix(|run|, r, d), d);
    PrefixFate(run, r, d, d);
  }

  lemma NothingYet(input: seq<Pkt>)
    ensures Good(input[..0]) == [] && Bad(input[..0]) == []
  {
  }
}
