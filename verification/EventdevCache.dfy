/**
  Fetching events: a burst from the device may hold events of several queues, but a call returns
  events of one queue only, so that the rest is kept in a thread-local cache for later calls.
 */
module EventdevCache {
  const MAX_SCHED_BURST := 128

  /** An event of the device: its queue, whether it is a packet that needs input processing, and what it carries. */
  datatype Event = Event(queue: nat, isPacket: bool, payload: int)

  /** The events of one queue and one kind, in order. */
  function Sel(s: seq<Event>, q: nat, isPacket: bool): (r: seq<Event>)
    decreases |s|
  {
    if s == [] then [] else
      var r, e := Sel(s[..|s| - 1], q, isPacket), s[|s| - 1];
      if e.queue == q && e.isPacket == isPacket then r + [e] else r
  }

  lemma {:induction false} SelAppend(a: seq<Event>, b: seq<Event>, q: nat, isPacket: bool)
    ensures Sel(a + b, q, isPacket) == Sel(a, q, isPacket) + Sel(b, q, isPacket)
    decreases |b|
  {
    if b == [] {
      assert a + b == a;
    } else {
      assert (a + b)[..|a + b| - 1] == a + b[..|b| - 1];
      SelAppend(a, b[..|b| - 1], q, isPacket);
    }
  }

  ghost predicate OneQueue(s: seq<Event>, q: nat) { forall i :: 0 <= i < |s| ==> s[i].queue == q }

  ghost predicate OneKind(s: seq<Event>, isPacket: bool) { forall i :: 0 <= i < |s| ==> s[i].isPacket == isPacket }

  /** Events of one queue and kind are selected as a whole or not at all. */
  lemma {:induction false} SelUniform(s: seq<Event>, sq: nat, sp: bool, q: nat, isPacket: bool)
    requires OneQueue(s, sq) && OneKind(s, sp)
    ensures Sel(s, q, isPacket) == if q == sq && isPacket == sp then s else []
    decreases |s|
  {
    if s != [] {
      SelUniform(s[..|s| - 1], sq, sp, q, isPacket);
      assert s == s[..|s| - 1] + [s[|s| - 1]];
    }
  }

  /** Packets are behind the other events. */
  ghost predicate PacketsLast(s: seq<Event>) { forall i, j :: 0 <= i < j < |s| && s[i].isPacket ==> s[j].isPacket }

  lemma KindsInOrder(others: seq<Event>, pkts: seq<Event>)
    requires OneKind(others, false) && OneKind(pkts, true)
    ensures PacketsLast(others + pkts) && (pkts == [] ==> others + pkts == others)
  {
  }

  /** What was delivered and what is cached is what was fetched, in order for every queue and kind. */
  ghost predicate Faithful(fetched: seq<Event>, delivered: seq<Event>, cached: seq<Event>) {
    forall q, isPacket :: Sel(fetched, q, isPacket) == Sel(delivered, q, isPacket) + Sel(cached, q, isPacket)
  }

  lemma FaithfulFetch(fetched: seq<Event>, delivered: seq<Event>, burst: seq<Event>)
    requires Faithful(fetched, delivered, [])
    ensures Faithful(fetched + burst, delivered, burst)
  {
    forall q, isPacket
        ensures Sel(fetched + burst, q, isPacket) == Sel(delivered, q, isPacket) + Sel(burst, q, isPacket) {
      SelAppend(fetched, burst, q, isPacket);
      assert Sel([], q, isPacket) == [];
    }
  }

  class Local {
    const cache: array<Event>
    var idx: nat
    var count: nat
    ghost var fetched: seq<Event>
    ghost var delivered: seq<Event>

    ghost predicate Bounded()
      reads `idx, `count
    {
      cache.Length == MAX_SCHED_BURST && idx + count <= MAX_SCHED_BURST
    }

    ghost function Cached(): (s: seq<Event>)
      requires Bounded()
      reads `idx, `count, cache
    {
      cache[idx..idx + count]
    }

    ghost predicate Valid()
      reads this, cache
    {
      Bounded() && Faithful(fetched, delivered, Cached())
    }

    constructor ()
      ensures Valid() && fetched == [] && delivered == [] && count == 0
    {
      cache := new Event[MAX_SCHED_BURST](i => Event(0, false, 0));
      idx, count, fetched, delivered := 0, 0, [], [];
    }

    /**
      Process a burst.  Events up to the first one of another queue are returned, packets behind
      the others; from that one on they are cached.
     */
    method EventInput(ev: seq<Event>) returns (out: seq<Event>, queue: nat, ghost n: nat)
      requires Bounded() && |ev| <= MAX_SCHED_BURST
      requires count == 0 || forall i :: 0 <= i < |ev| ==> ev[i].queue == ev[0].queue
      modifies `idx, `count, cache
      ensures Bounded() && n <= |ev| && |out| == n
      ensures n == |ev| ==> idx == old(idx) && count == old(count) && cache[..] == old(cache[..])
      ensures n < |ev| ==> Cached() == ev[n..] && ev[n].queue != queue
      ensures OneQueue(out, queue) && OneQueue(ev[..n], queue) && (ev != [] ==> n > 0 && queue == ev[0].queue)
      ensures forall q, isPacket :: Sel(ev[..n], q, isPacket) == Sel(out, q, isPacket)
      ensures out == Sel(ev[..n], queue, false) + Sel(ev[..n], queue, true) && PacketsLast(out)
    {
      hide PacketsLast;
      out, queue, n := [], 0, 0;
      KindsInOrder(out, []);
      if |ev| == 0 { return; }
      queue := ev[0].queue;
      var pkts: seq<Event> := [];
      var i := 0;
      while i < |ev| && ev[i].queue == queue
        invariant 0 <= i <= |ev| && i == |out| + |pkts|
        invariant OneQueue(ev[..i], queue) && OneQueue(out, queue) && OneQueue(pkts, queue)
        invariant OneKind(out, false) && OneKind(pkts, true)
        invariant Sel(ev[..i], queue, true) == pkts && Sel(ev[..i], queue, false) == out
        invariant i == 0 ==> ev[0].queue == queue
      {
        assert ev[..i + 1][..i] == ev[..i];
        if ev[i].isPacket {
          pkts := pkts + [ev[i]];
        } else {
          out := out + [ev[i]];
        }
        i := i + 1;
      }
      n := i;
      InputSelects(ev[..n], out, pkts, queue);
      KindsInOrder(out, pkts);
      if i < |ev| {
        FillCache(ev, i);
      }
      out := out + pkts;
    }

    /** Keep the rest of a burst. */
    method FillCache(ev: seq<Event>, from: nat)
      requires Bounded() && count == 0 && from <= |ev| <= MAX_SCHED_BURST
      modifies `idx, `count, cache
      ensures Bounded() && Cached() == ev[from..]
    {
      idx := 0;
      for j := from to |ev|
        invariant Bounded() && idx == 0 && count == j - from
        invariant cache[..count] == ev[from..j]
      {
        cache[count] := ev[j];
        count := count + 1;
      }
      assert cache[idx..idx + count] == cache[..count];
    }

    /** Take consecutive events of one queue from the cache. */
    method TakeCached(maxNum: nat) returns (ev: seq<Event>, ghost first: nat)
      requires Bounded() && count > 0
      modifies `idx, `count
      ensures Bounded() && ev + Cached() == old(Cached()) && |ev| <= maxNum && (maxNum > 0 ==> ev != [])
      ensures OneQueue(ev, first) && (|ev| == maxNum || count == 0 || Cached()[0].queue != first)
    {
      ghost var from, to := idx, idx + count;
      ev := [];
      var firstQueue := cache[idx].queue;
      first := firstQueue;
      while |ev| < maxNum && count > 0 && cache[idx].queue == firstQueue
        invariant |ev| <= maxNum && from <= idx && idx + count == to
        invariant ev == cache[from..idx] && OneQueue(ev, firstQueue)
        invariant ev == [] ==> count > 0 && cache[idx].queue == firstQueue
        decreases count
      {
        ev := ev + [cache[idx]];
        idx, count := idx + 1, count - 1;
      }
      assert cache[from..idx] + cache[idx..to] == cache[from..to];
    }

    /** Return events of one queue from the cache. */
    method InputCached(maxNum: nat) returns (out: seq<Event>, queue: nat)
      requires Valid() && count > 0 && maxNum <= MAX_SCHED_BURST
      modifies this, cache
      ensures Valid() && fetched == old(fetched) && delivered == old(delivered) + out
      ensures OneQueue(out, queue) && |out| <= maxNum && (maxNum > 0 ==> out != [])
      ensures |out| == maxNum || count == 0 || Cached()[0].queue != queue
      ensures PacketsLast(out)
    {
      hide Faithful, Sel, PacketsLast;
      var ev, first := TakeCached(maxNum);
      ghost var rest, n := Cached(), 0;
      out, queue, n := EventInput(ev);
      assert n == |ev| && ev[..n] == ev;
      assert Cached() == rest;
      SelSame(fetched, delivered, ev, rest, out);
      delivered := delivered + out;
    }

    /**
      One call for events: from the cache if it holds any, else from a burst of the device.
      What it returns is of one queue, packets last, and no fewer events than asked for unless the
      next one is of another queue or there is none; over all calls every event fetched from the device is
      delivered exactly once, in order for its queue and kind.
     */
    method Schedule(burst: seq<Event>, maxNum: nat) returns (out: seq<Event>, queue: nat)
      requires Valid() && |burst| <= maxNum && |burst| <= MAX_SCHED_BURST
      modifies this, cache
      ensures Valid() && OneQueue(out, queue) && |out| <= maxNum && delivered == old(delivered) + out
      ensures fetched == if old(count) > 0 then old(fetched) else old(fetched) + burst
      ensures (if old(count) > 0 then maxNum > 0 else burst != []) ==> out != []
      ensures |out| == maxNum || |out| == MAX_SCHED_BURST || count == 0 || Cached()[0].queue != queue
      ensures PacketsLast(out)
    {
      hide Faithful, Sel, PacketsLast;
      var num := if maxNum > MAX_SCHED_BURST then MAX_SCHED_BURST else maxNum;
      if count > 0 {
        out, queue := InputCached(num);
      } else {
        assert Cached() == [];
        FaithfulFetch(fetched, delivered, burst);
        fetched := fetched + burst;
        ghost var n;
        out, queue, n := EventInput(burst);
        ghost var rest := burst[n..];
        assert burst[..n] + rest == burst;
        SelSame(fetched, delivered, burst[..n], rest, out);
        assert n == |burst| ==> Cached() == [];
        delivered := delivered + out;
      }
    }
  }

  lemma SelSame(fetched: seq<Event>, delivered: seq<Event>, burst: seq<Event>, rest: seq<Event>, out: seq<Event>)
    requires Faithful(fetched, delivered, burst + rest)
    requires forall q, isPacket :: Sel(burst, q, isPacket) == Sel(out, q, isPacket)
    ensures Faithful(fetched, delivered + out, rest)
  {
    hide Sel;
    forall q, isPacket ensures Sel(fetched, q, isPacket) == Sel(delivered + out, q, isPacket) + Sel(rest, q, isPacket) {
      SelAppend(burst, rest, q, isPacket);
      SelAppend(delivered, out, q, isPacket);
    }
  }

  /** Splitting a burst of one queue by kind keeps the order of each kind. */
  lemma InputSelects(burst: seq<Event>, others: seq<Event>, pkts: seq<Event>, queue: nat)
    requires OneQueue(burst, queue) && OneQueue(others, queue) && OneQueue(pkts, queue) && OneKind(others, false) &&
        OneKind(pkts, true)
    requires Sel(burst, queue, true) == pkts && Sel(burst, queue, false) == others
    ensures forall q, isPacket :: Sel(burst, q, isPacket) == Sel(others + pkts, q, isPacket)
  {
    forall q, isPacket ensures Sel(burst, q, isPacket) == Sel(others + pkts, q, isPacket) {
      SelAppend(others, pkts, q, isPacket);
      SelUniform(others, queue, false, q, isPacket);
      SelUniform(pkts, queue, true, q, isPacket);
      if q != queue { SelOther(burst, queue, q, isPacket); }
    }
  }

  lemma {:induction false} SelOther(s: seq<Event>, sq: nat, q: nat, isPacket: bool)
    requires OneQueue(s, sq) && q != sq
    ensures Sel(s, q, isPacket) == []
    decreases |s|
  {
    if s != [] { SelOther(s[..|s| - 1], sq, q, isPacket); }
  }
}
