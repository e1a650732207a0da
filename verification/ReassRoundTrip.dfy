/**
  End to end: what goes in as fragments comes out as datagrams, each exactly once, and gluing
  the fragments of an output restores the packet that was fragmented (section 3.2 of RFC 791).
 */
module ReassRoundTrip {
  import opened Basics
  import opened IpHeader
  import opened FragOrder
  import opened FragSort
  import opened FragExtract
  import opened Fragment
  import opened Glue
  import opened ReassState
  import opened ReassPlaces
  import opened ReassSafety
  import opened ReassComplete
  import opened ReassTheorems

  /** Fragments of one flow make up at most one datagram. */
  lemma {:induction false} SamePosition(u: set<Frag>, d: seq<Frag>, d': seq<Frag>, i: nat)
    requires Sane(u) && Within(d, u) && Within(d', u) && Datagram(d) && Datagram(d')
    requires EqualFlow(d[0], d'[0]) && i < |d|
    ensures i < |d'| && d[i] == d'[i]
    decreases i
  {
    if i == 0 {
      assert d[0] in d && d'[0] in d';
    } else {
      SamePosition(u, d, d', i - 1);
      assert Joined(d, i - 1) && d[i] in d;
      assert d[i].oct > 0;
      assert i < |d'|;
      assert Joined(d', i - 1) && d'[i] in d';
      assert EqualFlow(d[i], d'[i]);
    }
  }

  lemma DatagramUnique(u: set<Frag>, d: seq<Frag>, d': seq<Frag>)
    requires Sane(u) && Within(d, u) && Within(d', u) && Datagram(d) && Datagram(d')
    requires EqualFlow(d[0], d'[0])
    ensures d == d'
  {
    forall i | 0 <= i < |d| ensures i < |d'| && d[i] == d'[i] { SamePosition(u, d, d', i); }
    SamePosition(u, d', d, |d'| - 1);
  }

  /** All threads are done. */
  ghost predicate Quiet(st: State) { forall t :: 0 <= t < |st.threads| ==> st.threads[t].Idle? }

  /** A complete datagram whose fragments have all been submitted, and none of them collected as garbage. */
  ghost predicate Submitted(st: State, d: seq<Frag>) {
    forall x :: x in d ==> x !in st.waiting && x !in st.freed
  }

  /** An output that shares a fragment with a datagram is that datagram. */
  lemma OutputIs(c: Config, st: State, w: Map, d: seq<Frag>, x: Frag, i: nat)
    requires Placed(c, st, w) && Sane(c.universe) && OnlyDatagrams(st.out)
    requires Datagram(d) && Within(d, c.universe) && x in d && i < |st.out| && x in st.out[i]
    ensures st.out[i] == d
  {
    assert Holds(w, st.out[i], Output(i));
    DatagramFlow(d, x);
    DatagramFlow(st.out[i], x);
    DatagramUnique(c.universe, st.out[i], d);
  }

  /** Where the fragments of a submitted datagram are when all threads are done. */
  lemma InBucketOrOut(c: Config, st: State, w: Map, d: seq<Frag>, x: Frag)
    requires c.Valid() && Placed(c, st, w) && AllGood(c, st) && Quiet(st) && Submitted(st, d)
    requires x in d && x in c.universe
    ensures w[x].Output? || (w[x] == InBucket(c.Bucket(x)) && c.Bucket(x) < |st.chains| && x in st.chains[c.Bucket(x)])
    ensures w[x].Output? ==> w[x].i < |st.out| && x in st.out[w[x].i]
  {
    hide AllGood, Holds;
    PlacedOccurs(c, st, w, x, w[x]);
    if w[x].InBucket? { BucketOf(c, st, w[x].b, x); }
  }

  lemma BucketOf(c: Config, st: State, b: nat, x: Frag)
    requires c.Valid() && Shaped(c, st) && AllGood(c, st) && b < c.buckets && x in st.chains[b]
    ensures c.Bucket(x) == b
  {
    assert BucketGood(c, st, b);
  }

  /** Without an output of it, the fragments of a datagram are together in one bucket. */
  lemma AllInBucket(c: Config, st: State, w: Map, d: seq<Frag>)
    requires Safe(c, st, w) && Sane(c.universe) && Quiet(st) && Submitted(st, d)
    requires Datagram(d) && Within(d, c.universe)
    requires forall i :: 0 <= i < |st.out| ==> st.out[i] != d
    ensures c.Bucket(d[0]) < |st.chains| && Included(d, st.chains[c.Bucket(d[0])])
  {
    hide AllGood, Datagram, AllSettled, AllCurrent, Holds;
    forall x | x in d
        ensures c.Bucket(x) < |st.chains| && x in st.chains[c.Bucket(x)] && c.Bucket(x) == c.Bucket(d[0]) {
      InBucketOrOut(c, st, w, d, x);
      if w[x].Output? { OutputIs(c, st, w, d, x, w[x].i); }
      DatagramFlow(d, x);
    }
    NotEmpty(d);
    assert d[0] in d;
  }

  lemma NotEmpty(d: seq<Frag>)
    requires Datagram(d)
    ensures d != []
  {
  }

  /**
    No loss and no duplication: once all threads are done, every complete datagram that was
    submitted is output exactly once, whatever the order of submission and the interleaving.
   */
  lemma Delivered(c: Config, run: seq<State>, i: nat, d: seq<Frag>) returns (k: nat)
    requires Run(c, run) && i < |run| && Tame(c) && Quiet(run[i])
    requires Datagram(d) && Within(d, c.universe) && Submitted(run[i], d)
    ensures k < |run[i].out| && run[i].out[k] == d
    ensures forall j :: 0 <= j < |run[i].out| && run[i].out[j] == d ==> j == k
  {
    hide Datagram, AllGood, Run, Tame, AllCurrent, Within, Submitted, Quiet, Sane;
    var st := run[i];
    var w := RunSafe(c, run, i);
    TameSane(c);
    if forall j :: 0 <= j < |st.out| ==> st.out[j] != d {
      AllInBucket(c, st, w, d);
      assert false;
    }
    k :| 0 <= k < |st.out| && st.out[k] == d;
    NotEmpty(d);
    forall j | 0 <= j < |st.out| && st.out[j] == d ensures j == k {
      assert Holds(w, st.out[j], Output(j)) && Holds(w, st.out[k], Output(k));
      assert d[0] in d;
    }
  }

  lemma TameSane(c: Config)
    requires c.buckets > 0 && Tame(c)
    ensures Sane(c.universe)
  {
  }

  /** The record of a fragment of a datagram. */
  lemma PieceRecord(d: seq<Frag>, p: Packet, j: nat)
    requires FragmentsOf(d, p) && j < |d|
    ensures var i := |d| - 1 - j;
            && MTU * i < Body(p) && d[j].Framed() && d[j].flow == FlowOf(p)
            && d[j].off == MTU_OCT * i && d[j].len == PieceLen(p, i) && d[j].more == (j > 0)
            && (j > 0 ==> d[j].oct == MTU_OCT)
  {
    hide Piece, FlowOf, Offset, MoreFragments;
    var i := |d| - 1 - j;
    assert Received(d[j]) && d[j].pkt == Piece(p, i);
    PieceAt(p, i);
    PieceContent(p, i);
  }

  /** All fragments of an oversized datagram make up a datagram. */
  lemma FragmentsDatagram(d: seq<Frag>, p: Packet)
    requires FragmentsOf(d, p) && Body(p) > MTU
    ensures Datagram(d) && d[0].flow == FlowOf(p)
  {
    hide FragmentsOf, FlowOf, Pieces;
    FragmentsCount(d, p);
    PieceRecord(d, p, 0);
    PieceRecord(d, p, |d| - 1);
    forall j | 0 <= j < |d| ensures EqualFlow(d[0], d[j]) { PieceRecord(d, p, j); }
    forall j | 0 <= j < |d| - 1 ensures Joined(d, j) {
      PieceRecord(d, p, j);
      PieceRecord(d, p, j + 1);
    }
  }

  lemma FragmentsCount(d: seq<Frag>, p: Packet)
    requires FragmentsOf(d, p) && Body(p) > MTU
    ensures |d| > 1
  {
  }

  lemma FragmentsApart(d: seq<Frag>, p: Packet, i: nat, j: nat)
    requires FragmentsOf(d, p) && i < j < |d|
    ensures d[j].Limit() <= d[i].off && d[j].more
  {
    hide FragmentsOf, FlowOf, Pieces;
    PieceRecord(d, p, i);
    PieceRecord(d, p, j);
  }

  predicate SameBucket(c: Config, f: Flow, g: Flow)
    requires c.buckets > 0
  {
    c.hash(f) % c.buckets == c.hash(g) % c.buckets
  }

  /**
    The fragments of a set of oversized datagrams, any two of which differ in identification,
    protocol or addresses; flows that share a bucket are ordered.
   */
  ghost predicate Traffic(c: Config, ps: seq<Packet>, ds: seq<seq<Frag>>) {
    && c.Valid() && |ds| == |ps|
    && (forall k :: 0 <= k < |ds| ==> FragmentsOf(ds[k], ps[k]) && Body(ps[k]) > MTU)
    && (forall j, k :: 0 <= j < k < |ds| ==> !SameKey(ps[j], ps[k]))
    && (forall j, k :: 0 <= j < |ds| && 0 <= k < |ds| && SameBucket(c, FlowOf(ps[j]), FlowOf(ps[k])) ==>
          Ordered(FlowOf(ps[j]), FlowOf(ps[k])))
    && (forall k, x :: 0 <= k < |ds| && x in ds[k] ==> x in c.universe)
    && (forall x :: x in c.universe ==> exists k :: 0 <= k < |ds| && x in ds[k])
  }

  /** The fragment is one of those of the k-th datagram. */
  lemma TrafficOf(c: Config, ps: seq<Packet>, ds: seq<seq<Frag>>, x: Frag) returns (k: nat, i: nat)
    requires Traffic(c, ps, ds) && x in c.universe
    ensures k < |ds| == |ps| && i < |ds[k]| && ds[k][i] == x && FragmentsOf(ds[k], ps[k])
    ensures x.flow == FlowOf(ps[k]) && x.Framed() && x.len > 0
  {
    hide FragmentsOf, FlowOf, Ordered;
    k :| 0 <= k < |ds| && x in ds[k];
    i :| 0 <= i < |ds[k]| && ds[k][i] == x;
    PieceRecord(ds[k], ps[k], i);
  }

  lemma OneFlow(c: Config, ps: seq<Packet>, ds: seq<seq<Frag>>, j: nat, k: nat)
    requires Traffic(c, ps, ds) && j < |ds| && k < |ds| && |ps| == |ds| && FlowOf(ps[j]) == FlowOf(ps[k])
    ensures j == k
  {
    hide FragmentsOf, FlowOf, Ordered, SameKey;
    FlowBytes(ps[j], ps[k]);
    FlowBytes(ps[k], ps[j]);
  }

  lemma TrafficApart(c: Config, ps: seq<Packet>, ds: seq<seq<Frag>>, a: Frag, b: Frag)
    requires Traffic(c, ps, ds) && a in c.universe && b in c.universe && a != b && EqualFlow(a, b)
    ensures Apart(a, b)
  {
    hide FragmentsOf, FlowOf, Ordered, Traffic;
    var j, x := TrafficOf(c, ps, ds, a);
    var k, y := TrafficOf(c, ps, ds, b);
    OneFlow(c, ps, ds, j, k);
    if x < y { FragmentsApart(ds[j], ps[j], x, y); } else { FragmentsApart(ds[j], ps[j], y, x); }
  }

  lemma TrafficTame(c: Config, ps: seq<Packet>, ds: seq<seq<Frag>>)
    requires Traffic(c, ps, ds)
    ensures Tame(c)
  {
    hide Traffic, FragmentsOf, FlowOf, Ordered, Apart;
    TrafficValid(c, ps, ds);
    forall a | a in c.universe ensures a.Framed() && a.len > 0 { var k, i := TrafficOf(c, ps, ds, a); }
    forall a, b | a in c.universe && b in c.universe && a != b && EqualFlow(a, b) ensures Apart(a, b) {
      TrafficApart(c, ps, ds, a, b);
    }
    forall a, b | a in c.universe && b in c.universe && c.Bucket(a) == c.Bucket(b) ensures Ordered(a.flow, b.flow) {
      TrafficOrdered(c, ps, ds, a, b);
    }
  }

  lemma TrafficValid(c: Config, ps: seq<Packet>, ds: seq<seq<Frag>>)
    requires Traffic(c, ps, ds)
    ensures c.Valid() && |ds| == |ps|
  {
  }

  lemma TrafficOrdered(c: Config, ps: seq<Packet>, ds: seq<seq<Frag>>, a: Frag, b: Frag)
    requires Traffic(c, ps, ds) && a in c.universe && b in c.universe && c.Bucket(a) == c.Bucket(b)
    ensures Ordered(a.flow, b.flow)
  {
    hide FragmentsOf, FlowOf, Ordered;
    var j, x := TrafficOf(c, ps, ds, a);
    var k, y := TrafficOf(c, ps, ds, b);
    assert SameBucket(c, FlowOf(ps[j]), FlowOf(ps[k]));
  }

  lemma {:induction false} CountOnce<T(!new)>(s: seq<T>, x: T)
    requires NoRepeats(s)
    ensures multiset(s)[x] == if x in s then 1 else 0
    decreases |s|
  {
    if s != [] {
      var t := s[..|s| - 1];
      assert s == t + [s[|s| - 1]];
      CountOnce(t, x);
    }
  }

  /** Lists without repetition and with the same members have the same members, counted. */
  lemma SameMultiset<T(!new)>(a: seq<T>, b: seq<T>)
    requires NoRepeats(a) && NoRepeats(b) && forall x :: x in a <==> x in b
    ensures multiset(a) == multiset(b)
  {
    forall x ensures multiset(a)[x] == multiset(b)[x] {
      CountOnce(a, x);
      CountOnce(b, x);
    }
  }

  /** Each datagram of the traffic is output. */
  lemma TrafficDelivered(c: Config, ps: seq<Packet>, ds: seq<seq<Frag>>, run: seq<State>, i: nat, k: nat)
    requires Traffic(c, ps, ds) && Run(c, run) && i < |run| && Quiet(run[i]) && run[i].waiting == {} &&
        run[i].freed == []
    requires k < |ds|
    ensures ds[k] in run[i].out
  {
    hide FragmentsOf, FlowOf, Ordered, Run, Quiet, Datagram;
    TrafficTame(c, ps, ds);
    FragmentsDatagram(ds[k], ps[k]);
    var j := Delivered(c, run, i, ds[k]);
  }

  /** Each output is a datagram of the traffic. */
  lemma TrafficOutput(c: Config, ps: seq<Packet>, ds: seq<seq<Frag>>, st: State, w: Map, j: nat) returns (k: nat)
    requires Traffic(c, ps, ds) && Safe(c, st, w) && j < |st.out|
    ensures k < |ds| && st.out[j] == ds[k]
  {
    hide FragmentsOf, FlowOf, Ordered, AllGood, AllCurrent, AllSettled;
    TrafficTame(c, ps, ds);
    var x := st.out[j][0];
    assert Holds(w, st.out[j], Output(j)) && x in st.out[j];
    var n: nat;
    k, n := TrafficOf(c, ps, ds, x);
    FragmentsDatagram(ds[k], ps[k]);
    OutputIs(c, st, w, ds[k], x, j);
  }

  /** Gluing the fragments gives back the packet exactly if it was canonical. */
  predicate Restored(d: seq<Frag>, p: Packet) {
    d != [] && AllReceived(d) && WellFormed(p) && (Glued(d) == p <==> Canonical(p))
  }

  lemma OutputsDiffer(c: Config, st: State, w: Map)
    requires Placed(c, st, w) && OnlyDatagrams(st.out)
    ensures NoRepeats(st.out)
  {
    forall i, j | 0 <= i < j < |st.out| ensures st.out[i] != st.out[j] {
      assert Holds(w, st.out[i], Output(i)) && Holds(w, st.out[j], Output(j));
      assert Datagram(st.out[i]) && st.out[i][0] in st.out[i];
    }
  }

  lemma TrafficDiffers(c: Config, ps: seq<Packet>, ds: seq<seq<Frag>>)
    requires Traffic(c, ps, ds)
    ensures NoRepeats(ds)
  {
    hide FragmentsOf, FlowOf, Ordered, Datagram;
    forall j, k | 0 <= j < k < |ds| ensures ds[j] != ds[k] {
      FragmentsDatagram(ds[j], ps[j]);
      FragmentsDatagram(ds[k], ps[k]);
      FlowBytes(ps[j], ps[k]);
    }
  }

  /**
    The round trip: for every set of oversized datagrams that differ in identification, protocol
    or addresses, ordered within each bucket, every run that submits all their fragments and
    collects none outputs, when all threads are done, exactly the fragment lists of these
    datagrams, each once; and each glues to the datagram it came from, byte for byte, exactly when that was canonical.
   */
  lemma EndToEnd(c: Config, ps: seq<Packet>, ds: seq<seq<Frag>>, run: seq<State>, i: nat)
    requires Traffic(c, ps, ds) && Run(c, run) && i < |run|
    requires Quiet(run[i]) && run[i].waiting == {} && run[i].freed == []
    ensures multiset(run[i].out) == multiset(ds)
    ensures forall k :: 0 <= k < |ds| ==> Restored(ds[k], ps[k])
  {
    hide Traffic, Run, Quiet, Safe, FragmentsOf, Datagram, Restored;
    var st := run[i];
    var w := RunSafe(c, run, i);
    forall d ensures d in st.out <==> d in ds {
      if d in ds {
        var k :| 0 <= k < |ds| && ds[k] == d;
        TrafficDelivered(c, ps, ds, run, i, k);
      }
      if d in st.out {
        var j :| 0 <= j < |st.out| && st.out[j] == d;
        var k := TrafficOutput(c, ps, ds, st, w, j);
      }
    }
    SafeDiffers(c, st, w);
    TrafficValid(c, ps, ds);
    TrafficDiffers(c, ps, ds);
    SameMultiset(st.out, ds);
    forall k | 0 <= k < |ds|
      ensures Restored(ds[k], ps[k])
    {
      TrafficGlued(c, ps, ds, k);
    }
  }

  lemma SafeDiffers(c: Config, st: State, w: Map)
    requires Safe(c, st, w)
    ensures NoRepeats(st.out)
  {
    hide AllGood, AllCurrent, AllSettled;
    OutputsDiffer(c, st, w);
  }

  lemma TrafficGlued(c: Config, ps: seq<Packet>, ds: seq<seq<Frag>>, k: nat)
    requires Traffic(c, ps, ds) && k < |ds|
    ensures |ps| == |ds| && Restored(ds[k], ps[k])
  {
    hide FlowOf, Ordered, Glued, Canonical, Received;
    FragmentsCount(ds[k], ps[k]);
    RoundTrip(ds[k], ps[k]);
  }
}
