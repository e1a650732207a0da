/**
  Sorting a batch of received packets: packets the classifier gave a destination queue are taken
  out and enqueued there, run by run, and what a queue refuses is freed; the others are moved
  together at the front of the batch.
 */
module EventdevClassify {
  import opened Basics
  import opened Fates

  datatype Pkt = Pkt(id: int, dst: Option<nat>)

  /** The destination queue of a packet that has one. */
  function Dst(p: Pkt): (q: nat) { if p.dst.Some? then p.dst.value else 0 }

  /** Packets without and with a destination queue, in order. */
  function Plain(s: seq<Pkt>): (r: seq<Pkt>) {
    if s == [] then [] else
      Plain(s[..|s| - 1]) + if s[|s| - 1].dst.None? then [s[|s| - 1]] else []
  }

  function Steered(s: seq<Pkt>): (r: seq<Pkt>)
    ensures forall i :: 0 <= i < |r| ==> r[i].dst.Some?
  {
    if s == [] then [] else
      Steered(s[..|s| - 1]) + if s[|s| - 1].dst.Some? then [s[|s| - 1]] else []
  }

  lemma SplitLast(s: seq<Pkt>)
    requires s != []
    ensures var t, p := s[..|s| - 1], s[|s| - 1];
            && Plain(s) == Plain(t) + (if p.dst.None? then [p] else [])
            && Steered(s) == Steered(t) + (if p.dst.Some? then [p] else [])
  {
  }

  lemma NoneSplit()
    ensures Plain([]) == [] && Steered([]) == []
  {
  }

  /** Nothing is lost or duplicated: a packet is returned, accepted by its queue, or freed. */
  lemma {:induction false} SplitConserves(s: seq<Pkt>)
    ensures multiset(Plain(s)) + multiset(Steered(s)) == multiset(s)
    decreases |s|
  {
    NoneSplit();
    hide Plain, Steered;
    if s != [] {
      var t, p := s[..|s| - 1], s[|s| - 1];
      SplitConserves(t);
      SplitLast(s);
      assert s == t + [p];
    }
  }

  /** The destinations of packets that have one. */
  function Dests(s: seq<Pkt>): (d: seq<nat>)
    requires forall i :: 0 <= i < |s| ==> s[i].dst.Some?
    ensures |d| == |s| && forall i :: 0 <= i < |s| ==> Some(d[i]) == s[i].dst
  {
    seq(|s|, i requires 0 <= i < |s| => s[i].dst.value)
  }

  function RunEnd(ev: seq<Pkt>, idx: seq<nat>, k: nat): (e: nat)
    requires k < |idx|
  {
    if k + 1 < |idx| then idx[k + 1] else |ev|
  }

  /** The packets of run k. */
  ghost predicate RunGood(ev: seq<Pkt>, dst: seq<nat>, idx: seq<nat>, k: nat)
    requires k < |idx| == |dst|
  {
    && idx[k] < RunEnd(ev, idx, k) <= |ev|
    && (k + 1 < |dst| ==> dst[k] != dst[k + 1])
    && forall j :: idx[k] <= j < RunEnd(ev, idx, k) ==> ev[j].dst == Some(dst[k])
  }

  /** The runs cover the packets. */
  ghost predicate Runs(ev: seq<Pkt>, dst: seq<nat>, idx: seq<nat>) {
    && |dst| == |idx| && (idx == [] <==> ev == []) && (idx != [] ==> idx[0] == 0)
    && forall k :: 0 <= k < |idx| ==> RunGood(ev, dst, idx, k)
  }

  /** One more packet extends the last run or begins a new one. */
  lemma RunsGrow(ev: seq<Pkt>, dst: seq<nat>, idx: seq<nat>, p: Pkt)
    requires Runs(ev, dst, idx) && p.dst.Some?
    ensures dst != [] && dst[|dst| - 1] == p.dst.value ==> Runs(ev + [p], dst, idx)
    ensures dst == [] || dst[|dst| - 1] != p.dst.value ==> Runs(ev + [p], dst + [p.dst.value], idx + [|ev|])
  {
    var ev' := ev + [p];
    if dst != [] && dst[|dst| - 1] == p.dst.value {
      forall k | 0 <= k < |idx| ensures RunGood(ev', dst, idx, k) { assert RunGood(ev, dst, idx, k); }
    } else {
      var dst', idx' := dst + [p.dst.value], idx + [|ev|];
      forall k | 0 <= k < |idx'| ensures RunGood(ev', dst', idx', k) {
        if k < |idx| { assert RunGood(ev, dst, idx, k); }
      }
    }
  }

  /** Every packet that a queue accepted was for that queue. */
  ghost predicate AtHome(s: seq<Pkt>, fate: Fate) {
    |s| == |fate| && forall i :: 0 <= i < |s| && fate[i].Some? ==> s[i].dst == fate[i]
  }

  /** What the queues gained: packets for the queue they are in. */
  ghost predicate GainedOwn(before: Contents<Pkt>, after: Contents<Pkt>) {
    forall q: nat :: In(before, q) <= In(after, q) && GainedFor(In(after, q), |In(before, q)|, q)
  }

  ghost predicate GainedFor(s: seq<Pkt>, from: nat, q: nat) { forall j :: from <= j < |s| ==> s[j].dst == Some(q) }

  lemma OwnIsHome(s: seq<Pkt>, fate: Fate)
    requires Own(s, fate, Dst) && forall i :: 0 <= i < |s| ==> s[i].dst.Some?
    ensures AtHome(s, fate)
  {
  }

  lemma HomeGained(before: Contents<Pkt>, after: Contents<Pkt>, freed: seq<Pkt>, freed': seq<Pkt>, s: seq<Pkt>,
      fate: Fate)
    requires Settled(before, after, freed, freed', s, fate) && AtHome(s, fate)
    ensures GainedOwn(before, after)
  {
    hide Picked, Refused, In;
    forall q: nat ensures In(before, q) <= In(after, q) && GainedFor(In(after, q), |In(before, q)|, q) {
      assert In(after, q) == In(before, q) + Picked(s, fate, q);
      forall j | |In(before, q)| <= j < |In(after, q)| ensures In(after, q)[j].dst == Some(q) {
        var i := PickedFrom(s, fate, q, j - |In(before, q)|);
      }
    }
  }

  /** Enqueue the runs, one call per run. */
  method EnqueueRuns(sys: Queues<Pkt>, ev: seq<Pkt>, dst: seq<nat>, idx: seq<nat>,
      willing: nat -> int) returns (ghost fate: Fate)
    requires Runs(ev, dst, idx)
    modifies sys
    ensures Settled(old(sys.contents), sys.contents, old(sys.freed), sys.freed, ev, fate) && Own(ev, fate, Dst)
    ensures AtHome(ev, fate) && GainedOwn(old(sys.contents), sys.contents)
    ensures (forall i :: 0 <= i < |ev| ==> ev[i].dst.Some?) && ByRuns(Dests(ev), fate, willing)
  {
    hide Settled, Own, Prefix, ByRuns, RunNo, Taken, Dests;
    fate := [];
    RunsHome(ev, dst, idx);
    ghost var d := Dests(ev);
    NoneByRuns(d, willing);
    ghost var before, freed := sys.contents, sys.freed;
    SettledNone(before, freed);
    OwnNone();
    ghost var done := 0;
    for i := 0 to |dst|
      invariant done == (if i < |idx| then idx[i] else |ev|) && done <= |ev|
      invariant Settled(before, sys.contents, freed, sys.freed, ev[..done], fate) && Own(ev[..done], fate, Dst)
      invariant |fate| == done && ByRuns(d, fate, willing) && (i < |dst| ==> done < |ev| && RunNo(d, done) == i)
    {
      assert RunGood(ev, dst, idx, i);
      var from, to := idx[i], RunEnd(ev, idx, i);
      var refused, fate' := sys.Offer(ev[from..to], dst[i], willing(i), before, freed, ev[..from], fate);
      OwnRun(ev[..from], fate, Dst, ev[from..to], dst[i], |ev[from..to]| - refused);
      if i > 0 { assert RunGood(ev, dst, idx, i - 1) && d[from - 1] == dst[i - 1]; }
      assert d[from] == dst[i];
      ByRunsNext(d, fate, willing, to);
      fate := fate';
      assert ev[..from] + ev[from..to] == ev[..to];
      done := to;
      if i + 1 < |idx| { assert RunGood(ev, dst, idx, i + 1); }
    }
    assert ev[..|ev|] == ev;
    OwnIsHome(ev, fate);
    HomeGained(before, sys.contents, freed, sys.freed, ev, fate);
  }

  /** The packets of runs have destinations. */
  lemma RunsHome(ev: seq<Pkt>, dst: seq<nat>, idx: seq<nat>)
    requires Runs(ev, dst, idx)
    ensures forall j :: 0 <= j < |ev| ==> ev[j].dst.Some?
  {
    forall j | 0 <= j < |ev| ensures ev[j].dst.Some? {
      var k := 0;
      while k + 1 < |idx| && idx[k + 1] <= j
        invariant 0 <= k < |idx| && idx[k] <= j
      {
        k := k + 1;
      }
      assert RunGood(ev, dst, idx, k);
    }
  }

  lemma OwnNone()
    ensures Own([], [], Dst)
  {
  }

  lemma SplitNone(input: seq<Pkt>)
    ensures Plain(input[..0]) == [] && Steered(input[..0]) == [] && Runs([], [], [])
  {
  }

  lemma SplitStep(input: seq<Pkt>, i: nat)
    requires i < |input|
    ensures Plain(input[..i + 1]) == Plain(input[..i]) + if input[i].dst.None? then [input[i]] else []
    ensures Steered(input[..i + 1]) == Steered(input[..i]) + if input[i].dst.Some? then [input[i]] else []
  {
    assert input[..i + 1][..i] == input[..i];
  }

  /** Move the packets without destination to the front, and collect the others in runs of equal destination. */
  method SplitBatch(packets: array<Pkt>, num: nat) returns (numRx: nat, ev: seq<Pkt>, dst: seq<nat>, idx: seq<nat>)
    requires num <= packets.Length
    modifies packets
    ensures numRx <= num && packets[..numRx] == Plain(old(packets[..num]))
    ensures forall j :: num <= j < packets.Length ==> packets[j] == old(packets[j])
    ensures ev == Steered(old(packets[..num])) && Runs(ev, dst, idx)
  {
    hide Plain, Steered, Runs;
    ghost var input := packets[..num];
    ev, dst, idx, numRx := [], [], [], 0;
    SplitNone(input);
    for i := 0 to num
      invariant numRx <= i && packets[..numRx] == Plain(input[..i])
      invariant forall j :: i <= j < packets.Length ==> packets[j] == old(packets[j])
      invariant ev == Steered(input[..i]) && Runs(ev, dst, idx)
    {
      var pkt := packets[i];
      SplitStep(input, i);
      if pkt.dst.Some? {
        RunsGrow(ev, dst, idx, pkt);
        if dst == [] || dst[|dst| - 1] != pkt.dst.value {
          dst, idx := dst + [pkt.dst.value], idx + [|ev|];
        }
        ev := ev + [pkt];
      } else {
        packets[numRx] := pkt;
        numRx := numRx + 1;
        assert packets[..numRx] == packets[..numRx - 1] + [pkt];
      }
    }
    assert input[..num] == input;
  }

  /**
    Classify a batch: packets without destination are moved to the front, in order, and their
    number is returned; every other packet goes to the end of its destination queue, in input
    order, or is freed.
   */
  method ClassifyPkts(packets: array<Pkt>, num: nat, sys: Queues<Pkt>, willing: nat -> int) returns (numRx: nat,
      ghost fate: Fate)
    requires num <= packets.Length
    modifies packets, sys
    ensures numRx <= num && packets[..numRx] == Plain(old(packets[..num]))
    ensures forall j :: num <= j < packets.Length ==> packets[j] == old(packets[j])
    ensures Settled(old(sys.contents), sys.contents, old(sys.freed), sys.freed, Steered(old(packets[..num])), fate)
    ensures Own(Steered(old(packets[..num])), fate, Dst)
    ensures AtHome(Steered(old(packets[..num])), fate) && GainedOwn(old(sys.contents), sys.contents)
    ensures ByRuns(Dests(Steered(old(packets[..num]))), fate, willing)
  {
    hide Settled, Own, Plain, Steered, Runs;
    var ev, dst, idx;
    numRx, ev, dst, idx := SplitBatch(packets, num);
    if |dst| == 0 {
      RunsEmpty(ev, dst, idx);
      SettledNone(sys.contents, sys.freed);
      OwnNone();
      fate := [];
      return;
    }
    fate := EnqueueRuns(sys, ev, dst, idx, willing);
  }

  lemma RunsEmpty(ev: seq<Pkt>, dst: seq<nat>, idx: seq<nat>)
    requires Runs(ev, dst, idx) && dst == []
    ensures ev == []
  {
  }

  lemma PickedHome(s: seq<Pkt>, fate: Fate, q: nat)
    requires AtHome(s, fate)
    ensures GainedFor(Picked(s, fate, q), 0, q)
  {
    hide Picked;
    forall j | 0 <= j < |Picked(s, fate, q)| ensures Picked(s, fate, q)[j].dst == Some(q) {
      var i := PickedFrom(s, fate, q, j);
    }
  }

  lemma HomeIsOwn(s: seq<Pkt>, fate: Fate)
    requires AtHome(s, fate)
    ensures Own(s, fate, Dst)
  {
  }

  /** Every packet of a batch ends up exactly once: returned, in its own queue in input order, or freed. */
  lemma BatchConserved(s: seq<Pkt>, fate: Fate)
    requires AtHome(Steered(s), fate)
    ensures multiset(Plain(s)) + multiset(Accepted(Steered(s), fate)) +
        multiset(Refused(Steered(s), fate)) == multiset(s)
    ensures forall q :: Picked(Steered(s), fate, q) == Only(Accepted(Steered(s), fate), Dst, q)
    ensures forall q :: GainedFor(Picked(Steered(s), fate, q), 0, q)
  {
    hide Plain, Steered, AtHome, Own, Picked, Accepted, Refused, Only, GainedFor;
    HomeIsOwn(Steered(s), fate);
    SplitConserves(s);
    FateConserves(Steered(s), fate);
    forall q: nat ensures Picked(Steered(s), fate, q) == Only(Accepted(Steered(s), fate), Dst, q) {
      PickedIsOnly(Steered(s), fate, Dst, q);
    }
    forall q: nat ensures GainedFor(Picked(Steered(s), fate, q), 0, q) { PickedHome(Steered(s), fate, q); }
  }
}
