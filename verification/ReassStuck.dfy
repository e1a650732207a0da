/**
  What unordered flows do to a run: the machine can come to rest with a complete datagram in a
  bucket.  Together with the completeness theorem this decides for which flows the reassembler
  can be relied on.
 */
module ReassStuck {
  import opened Basics
  import opened IpHeader
  import opened FragOrder
  import opened FragSort
  import opened FragExtract
  import opened Fragment
  import opened Glue
  import opened ReassState
  import opened ReassComplete
  import opened ReassTheorems
  import opened ReassRoundTrip
  import opened FlowExact

  /** Some run ends in the state. */
  ghost predicate Reachable(c: Config, st: State) { exists run :: Run(c, run) && run[|run| - 1] == st }

  lemma ReachStep(c: Config, st: State, e: Event)
    requires c.Valid() && Shaped(c, st) && Enabled(c, st, e) && Reachable(c, st)
    ensures Reachable(c, Apply(c, st, e))
  {
    hide Apply, Enabled, Init;
    var run :| Run(c, run) && run[|run| - 1] == st;
    var st' := Apply(c, st, e);
    var run' := run + [st'];
    assert Next(c, st, st');
    forall i | 0 <= i < |run'| - 1 ensures Next(c, run'[i], run'[i + 1]) {
      if i < |run| - 1 { assert Next(c, run[i], run[i + 1]); }
    }
    assert Run(c, run') && run'[|run'| - 1] == st';
  }

  /**
    A reachable state in which all threads are idle, with the given word and list in a bucket and
    nothing sent or freed.
   */
  ghost predicate Rest(c: Config, n: nat, st: State, b: nat, w: Word, s: seq<Frag>, waiting: set<Frag>) {
    && c.Valid() && Shaped(c, st) && Reachable(c, st) && |st.threads| == n > 0 && Quiet(st)
    && b < c.buckets && st.words[b] == w && st.chains[b] == s
    && st.waiting == waiting && st.out == [] && st.freed == []
  }

  /** ... and in which the first thread alone is busy. */
  ghost predicate Busy(c: Config, n: nat, st: State, b: nat, w: Word, s: seq<Frag>, waiting: set<Frag>, th: Thread) {
    && c.Valid() && Shaped(c, st) && Reachable(c, st) && |st.threads| == n > 0 && st.threads[0] == th
    && (forall t :: 1 <= t < |st.threads| ==> st.threads[t].Idle?)
    && b < c.buckets && st.words[b] == w && st.chains[b] == s
    && st.waiting == waiting && st.out == [] && st.freed == []
  }

  /** The word of a single fragment. */
  function One(f: Frag): (w: Word) { Word(Some(f.id), f.oct, f.Whole(), f.arrival) }

  lemma Submitting(c: Config, n: nat, st: State, b: nat, w: Word, s: seq<Frag>, waiting: set<Frag>,
      f: Frag) returns (st': State)
    requires Rest(c, n, st, b, w, s, waiting) && f in waiting && c.Bucket(f) == b
    ensures Busy(c, n, st', b, w, s, waiting - {f}, Redo(b, One(f), f.id, f.arrival, false, [f]))
  {
    hide Reachable;
    ReachStep(c, st, Submit(0, f));
    st' := Apply(c, st, Submit(0, f));
  }

  lemma Loading(c: Config, n: nat, st: State, b: nat, w: Word, s: seq<Frag>, waiting: set<Frag>, th: Thread)
    returns (st': State, v: nat)
    requires Busy(c, n, st, b, w, s, waiting, th) && th.Redo? && th.b == b
    ensures Busy(c, n, st', b, w, s, waiting,
        Loaded(b, th.frags, th.head, th.now, th.dont && w.tail.None?, w, th.list, v))
  {
    hide Reachable;
    ReachStep(c, st, Load(0));
    st', v := Apply(c, st, Load(0)), st.versions[b];
  }

  lemma Publishing(c: Config, n: nat, st: State, b: nat, w: Word, s: seq<Frag>, waiting: set<Frag>, th: Thread)
    returns (st': State)
    requires Busy(c, n, st, b, w, s, waiting, th) && th.Loaded? && th.b == b && th.oldfl == w && WaitForMore(th)
    ensures Rest(c, n, st', b, NewWord(w, th.frags, th.now), th.list + s, waiting)
  {
    hide Reachable, NewWord, WaitForMore;
    ReachStep(c, st, Publish(0));
    st' := Apply(c, st, Publish(0));
  }

  lemma Taking(c: Config, n: nat, st: State, b: nat, w: Word, s: seq<Frag>, waiting: set<Frag>, th: Thread)
    returns (st': State)
    requires Busy(c, n, st, b, w, s, waiting, th) && th.Loaded? && th.b == b && th.oldfl == w && !WaitForMore(th)
    ensures Busy(c, n, st', b, NULL_WORD, [], waiting, Taken(b, NewWord(w, th.frags, th.now), th.now, th.list + s))
  {
    hide Reachable, NewWord, WaitForMore;
    ReachStep(c, st, Take(0));
    st' := Apply(c, st, Take(0));
  }

  lemma Sorting(c: Config, n: nat, st: State, b: nat, w: Word, s: seq<Frag>, waiting: set<Frag>, th: Thread)
    returns (st': State)
    requires Busy(c, n, st, b, w, s, waiting, th) && th.Taken? && th.b == b
    ensures Busy(c, n, st', b, w, s, waiting, Extracting(b, th.newfl, th.now, false, Sort(th.list, th.now)))
  {
    hide Reachable, Sort, Link;
    ReachStep(c, st, SortList(0));
    st' := Apply(c, st, SortList(0));
  }

  lemma Finishing(c: Config, n: nat, st: State, b: nat, w: Word, s: seq<Frag>, waiting: set<Frag>, th: Thread)
    returns (st': State)
    requires Busy(c, n, st, b, w, s, waiting, th) && th.Extracting? && th.b == b && !th.changed && th.list != []
    requires Extract(th.list).NotFound?
    ensures Busy(c, n, st', b, w, s, waiting,
        Redo(b, th.newfl.(tail := TailOf(th.list)), HeadOf(th.list), th.now, true, th.list))
  {
    hide Reachable, Extract;
    ReachStep(c, st, Finish(0));
    st' := Apply(c, st, Finish(0));
  }

  /** A fragment is added without an attempt at reassembly. */
  lemma AddRound(c: Config, n: nat, st: State, b: nat, w: Word, s: seq<Frag>, waiting: set<Frag>,
      f: Frag) returns (st': State)
    requires Rest(c, n, st, b, w, s, waiting) && f in waiting && c.Bucket(f) == b
    requires var x := NewWord(w, One(f), f.arrival); x.part < x.whole
    ensures Rest(c, n, st', b, NewWord(w, One(f), f.arrival), [f] + s, waiting - {f})
  {
    hide Rest, Busy, NewWord, One;
    var s1 := Submitting(c, n, st, b, w, s, waiting, f);
    var th := Redo(b, One(f), f.id, f.arrival, false, [f]);
    var s2, v := Loading(c, n, s1, b, w, s, waiting - {f}, th);
    var th' := Loaded(b, One(f), f.id, f.arrival, false, w, [f], v);
    st' := Publishing(c, n, s2, b, w, s, waiting - {f}, th');
  }

  /** The word after a vain attempt. */
  function Tried(w: Word, f: Frag, s: seq<Frag>): (n: Word) {
    NewWord(NULL_WORD, NewWord(w, One(f), f.arrival).(tail := TailOf(s)), f.arrival)
  }

  /** A fragment is added and reassembly attempted in vain. */
  lemma TryRound(c: Config, n: nat, st: State, b: nat, w: Word, s: seq<Frag>, waiting: set<Frag>,
      f: Frag) returns (st': State)
    requires Rest(c, n, st, b, w, s, waiting) && f in waiting && c.Bucket(f) == b && w.tail.Some?
    requires var x := NewWord(w, One(f), f.arrival); x.part >= x.whole
    requires var r := Sort([f] + s, f.arrival); r != [] && Extract(r).NotFound?
    ensures var r := Sort([f] + s, f.arrival); Rest(c, n, st', b, Tried(w, f, r), r, waiting - {f})
  {
    hide Rest, Busy, NewWord, One, Sort, Extract;
    var r, x, left := Sort([f] + s, f.arrival), NewWord(w, One(f), f.arrival), waiting - {f};
    var s1 := Submitting(c, n, st, b, w, s, waiting, f);
    var s2, v := Loading(c, n, s1, b, w, s, left, Redo(b, One(f), f.id, f.arrival, false, [f]));
    var s3 := Taking(c, n, s2, b, w, s, left, Loaded(b, One(f), f.id, f.arrival, false, w, [f], v));
    var s4 := Sorting(c, n, s3, b, NULL_WORD, [], left, Taken(b, x, f.arrival, [f] + s));
    var s5 := Finishing(c, n, s4, b, NULL_WORD, [], left, Extracting(b, x, f.arrival, false, r));
    var u := x.(tail := TailOf(r));
    var s6, v' := Loading(c, n, s5, b, NULL_WORD, [], left, Redo(b, u, HeadOf(r), f.arrival, true, r));
    st' := Publishing(c, n, s6, b, NULL_WORD, [], left, Loaded(b, u, HeadOf(r), f.arrival, true, NULL_WORD, r, v'));
    assert r + [] == r;
  }

  /** The machine before any fragment has arrived. */
  function Start(c: Config, threads: nat): (st: State) {
    State(seq(c.buckets, _ => NULL_WORD), map[], seq(threads, _ => Idle), c.universe, [], [],
          seq(c.buckets, _ => []), seq(c.buckets, _ => 0))
  }

  lemma StartRest(c: Config, threads: nat, b: nat)
    requires c.Valid() && threads > 0 && b < c.buckets
    ensures Rest(c, threads, Start(c, threads), b, NULL_WORD, [], c.universe)
  {
    var st := Start(c, threads);
    assert Init(c, st);
    assert Run(c, [st]) && [st][|[st]| - 1] == st;
  }

  /** Two fragments that make up a datagram, and one of an unordered flow that is at least as long as the first. */
  predicate Hiding(a: Frag, b: Frag, z: Frag) {
    && EqualFlow(a, z) && !Ordered(a.flow, b.flow)
    && a.more && a.off == 0 && !z.more && z.off == a.Limit() && z.off > 0
    && b.more && z.off <= b.oct < IP_OCTET_MAX
  }

  lemma SortTwo(z: Frag, b: Frag, now: nat)
    requires !Ordered(z.flow, b.flow)
    ensures Sort([z, b], now) == [b, z]
  {
    hide Earliest;
    assert LaterFlow(b.flow, z.flow);
    assert Insert(z, [], now) == [z] && Insert(b, [z], now) == [b, z];
    assert [z, b][1..] == [b] && [b][1..] == [];
    assert SortInto([z], [b], now) == [b, z];
  }

  lemma TwoMissed(z: Frag, b: Frag)
    requires !Ordered(z.flow, b.flow) && b.more && z.off > 0
    ensures Extract([b, z]).NotFound?
  {
    var r := [b, z];
    assert r[0] == b && r[1] == z;
    assert RunEnd(r, 0) == 1 && RunEnd(r, 1) == 2;
    assert !CompleteAt(r, 0, 1) && !CompleteAt(r, 1, 2);
    assert Locate(r, 2) == Nowhere;
    assert Locate(r, 1) == Nowhere;
  }

  /** The lengths in the bucket: no attempt for the first fragment, and one for each of the others. */
  lemma StuckWords(a: Frag, b: Frag, z: Frag)
    requires Hiding(a, b, z)
    ensures var x := NewWord(NULL_WORD, One(b), b.arrival); x.part < x.whole && x.tail.Some?
    ensures var w := NewWord(NULL_WORD, One(b), b.arrival);
            var x, w' := NewWord(w, One(z), z.arrival), Tried(w, z, [b, z]);
            x.part >= x.whole && w'.tail.Some? && w'.part == x.part && w'.whole == x.whole
    ensures var w := Tried(NewWord(NULL_WORD, One(b), b.arrival), z, [b, z]);
            var x := NewWord(w, One(a), a.arrival); x.part >= x.whole
  {
    hide Earliest, Ordered, EqualFlow;
  }

  /** The words after the first fragment, and after the second. */
  function FirstWord(b: Frag): (w: Word) { NewWord(NULL_WORD, One(b), b.arrival) }

  function SecondWord(b: Frag, z: Frag): (w: Word) { Tried(FirstWord(b), z, [b, z]) }

  lemma StuckFirst(c: Config, n: nat, k: nat, a: Frag, b: Frag, z: Frag) returns (st: State)
    requires c.Valid() && n > 0 && Hiding(a, b, z) && b in c.universe && c.Bucket(b) == k < c.buckets
    ensures Rest(c, n, st, k, FirstWord(b), [b], c.universe - {b})
  {
    StuckWords(a, b, z);
    hide Rest, NewWord, One, Config.Valid, Config.Bucket, Hiding, Start;
    StartRest(c, n, k);
    st := AddRound(c, n, Start(c, n), k, NULL_WORD, [], c.universe, b);
    assert [b] + [] == [b];
  }

  lemma StuckSecond(c: Config, n: nat, k: nat, a: Frag, b: Frag, z: Frag, st: State,
      left: set<Frag>) returns (st': State)
    requires Hiding(a, b, z) && Rest(c, n, st, k, FirstWord(b), [b], left) && z in left && c.Bucket(z) == k
    ensures Rest(c, n, st', k, SecondWord(b, z), [b, z], left - {z})
  {
    StuckWords(a, b, z);
    HidingDiffer(a, b, z);
    SortTwo(z, b, z.arrival);
    TwoMissed(z, b);
    assert [z] + [b] == [z, b];
    hide Rest, NewWord, Tried, One, Sort, Extract, Config.Bucket, Hiding;
    st' := TryRound(c, n, st, k, FirstWord(b), [b], left, z);
  }

  lemma StuckThird(c: Config, n: nat, k: nat, a: Frag, b: Frag, z: Frag, st: State,
      left: set<Frag>) returns (st': State)
    requires Hiding(a, b, z) && Rest(c, n, st, k, SecondWord(b, z), [b, z], left) && a in left && c.Bucket(a) == k
    ensures Rest(c, n, st', k, Tried(SecondWord(b, z), a, [z, b, a]), [z, b, a], left - {a}) && HasDatagram([z, b, a])
  {
    StuckWords(a, b, z);
    SortSeparates(a, b, z, a.arrival);
    Missed(a, b, z, a.arrival);
    StillThere(a, b, z);
    assert [a] + [b, z] == [a, b, z];
    hide Rest, NewWord, Tried, One, Sort, Extract, HasDatagram, Config.Bucket, Hiding;
    st' := TryRound(c, n, st, k, SecondWord(b, z), [b, z], left, a);
  }

  /** From the start, one thread comes to rest with the datagram in the bucket. */
  lemma StuckRun(c: Config, n: nat, a: Frag, b: Frag, z: Frag) returns (st: State)
    requires c.Valid() && n > 0 && a in c.universe && b in c.universe && z in c.universe && Hiding(a, b, z)
    requires c.Bucket(a) == c.Bucket(b) == c.Bucket(z)
    ensures Reachable(c, st) && Quiet(st) && |st.threads| == n
    ensures Shaped(c, st) && c.Bucket(a) < c.buckets && st.chains[c.Bucket(a)] == [z, b, a] && HasDatagram([z, b, a])
    ensures st.waiting == c.universe - {b} - {z} - {a} && st.out == [] && st.freed == []
  {
    var k, u := c.Bucket(a), c.universe;
    assert k < c.buckets;
    HidingDiffer(a, b, z);
    hide Rest, Reachable, Quiet, Shaped, HasDatagram, Config.Bucket, Config.Valid, Hiding, FirstWord, SecondWord, Tried;
    var s1 := StuckFirst(c, n, k, a, b, z);
    var s2 := StuckSecond(c, n, k, a, b, z, s1, u - {b});
    st := StuckThird(c, n, k, a, b, z, s2, u - {b} - {z});
    RestIs(c, n, st, k, Tried(SecondWord(b, z), a, [z, b, a]), [z, b, a], u - {b} - {z} - {a});
  }

  lemma RestIs(c: Config, n: nat, st: State, b: nat, w: Word, s: seq<Frag>, waiting: set<Frag>)
    requires Rest(c, n, st, b, w, s, waiting)
    ensures Reachable(c, st) && Quiet(st) && |st.threads| == n && Shaped(c, st) && b < |st.chains| && st.chains[b] == s
    ensures st.waiting == waiting && st.out == [] && st.freed == []
  {
    hide Reachable;
  }

  lemma HidingDiffer(a: Frag, b: Frag, z: Frag)
    requires Hiding(a, b, z)
    ensures a != b && b != z && a != z && !Ordered(z.flow, b.flow)
  {
  }

  lemma StillThere(a: Frag, b: Frag, z: Frag)
    requires HasDatagram([a, b, z])
    ensures HasDatagram([z, b, a])
  {
    var d :| Datagram(d) && Included(d, [a, b, z]);
    hide Datagram;
    forall x | x in d ensures x in [z, b, a] { assert x in [a, b, z]; }
    assert Included(d, [z, b, a]);
  }

  /**
    Two packets of unordered flows that share a bucket, the first of two fragments: there is a
    run after which all threads are idle and the first packet's fragments are all in the bucket,
    although nothing was sent or freed.
   */
  lemma UnorderedStuck(c: Config, n: nat, p: Packet, q: Packet, d: seq<Frag>, e: seq<Frag>) returns (st: State, k: nat)
    requires c.Valid() && n > 0 && FragmentsOf(d, p) && MTU < Body(p) <= 2 * MTU && FragmentsOf(e, q) && Body(q) > MTU
    requires !Ordered(FlowOf(p), FlowOf(q)) && SameBucket(c, FlowOf(p), FlowOf(q))
    requires forall x :: x in d || x in e ==> x in c.universe
    ensures Reachable(c, st) && Quiet(st) && |st.threads| == n && st.out == [] && st.freed == []
    ensures k < |st.chains| && Datagram(d) && Included(d, st.chains[k])
    ensures |d| == 2 && |e| > 1 && st.waiting == c.universe - {d[0], d[1], e[1]}
  {
    hide FragmentsOf, FlowOf, Ordered, HasDatagram, Hiding, Config.Bucket, Config.Valid, Reachable, Quiet, Shaped,
        Datagram, SameBucket;
    HidingPieces(p, q, d, e);
    PiecesBucket(c, p, q, d[0], d[1], e[1]);
    FragmentsDatagram(d, p);
    assert d[0] in d && d[1] in d && e[1] in e;
    st := StuckRun(c, n, d[1], e[1], d[0]);
    k := c.Bucket(d[1]);
    ShapedChains(c, st);
    assert c.universe - {e[1]} - {d[0]} - {d[1]} == c.universe - {d[0], d[1], e[1]};
    forall x | x in d ensures x in st.chains[k] {
      assert d == [d[0], d[1]] && st.chains[k] == [d[0], e[1], d[1]];
    }
  }

  lemma ShapedChains(c: Config, st: State)
    requires Shaped(c, st)
    ensures |st.chains| == c.buckets
  {
  }

  lemma PiecesBucket(c: Config, p: Packet, q: Packet, x: Frag, y: Frag, z: Frag)
    requires c.Valid() && SameBucket(c, FlowOf(p), FlowOf(q)) && x.flow == y.flow == FlowOf(p) && z.flow == FlowOf(q)
    ensures c.buckets > 0 && c.Bucket(x) == c.Bucket(y) == c.Bucket(z)
  {
    hide FlowOf;
  }

  lemma HidingPieces(p: Packet, q: Packet, d: seq<Frag>, e: seq<Frag>)
    requires FragmentsOf(d, p) && MTU < Body(p) <= 2 * MTU && FragmentsOf(e, q) && Body(q) > MTU
    requires !Ordered(FlowOf(p), FlowOf(q))
    ensures |d| == 2 && |e| > 1 && Hiding(d[1], e[1], d[0])
    ensures d[0].flow == d[1].flow == FlowOf(p) && e[1].flow == FlowOf(q)
  {
    hide FlowOf, Ordered;
    FragmentsCount(e, q);
    assert |d| == 2;
    PieceRecord(d, p, 0);
    PieceRecord(d, p, 1);
    PieceRecord(e, q, 1);
  }

  /** The configuration has fragments of the given flows only, and they do not overlap. */
  ghost predicate Serves(c: Config, fs: set<Flow>) { c.Valid() && Sane(c.universe) && forall x :: x in c.universe ==>
      x.flow in fs }

  /** No run ever leaves a complete datagram in a bucket. */
  ghost predicate Reliable(c: Config) {
    forall st, b :: Reachable(c, st) && 0 <= b < |st.chains| ==> !HasDatagram(st.chains[b])
  }

  lemma OrderedReliable(c: Config, fs: set<Flow>)
    requires Serves(c, fs) && AllOrdered(fs)
    ensures Reliable(c)
  {
    hide Ordered, HasDatagram;
    assert Tame(c);
    forall st, b | Reachable(c, st) && 0 <= b < |st.chains| ensures !HasDatagram(st.chains[b]) {
      var run :| Run(c, run) && run[|run| - 1] == st;
      RunShaped(c, run, |run| - 1);
      NoneAtRest(c, run, |run| - 1, b);
    }
  }

  /** A configuration that is not reliable, from two unordered flows. */
  lemma UnorderedUnreliable(fs: set<Flow>, f: Flow, g: Flow) returns (c: Config)
    requires f in fs && g in fs && !Ordered(f, g)
    ensures Serves(c, fs) && !Reliable(c)
  {
    hide HasDatagram;
    var pkt: Packet := seq(20, i => 0);
    var a := Frag(0, pkt, 0, f, 0, 8, 1, true);
    var b := Frag(1, pkt, 0, g, 0, 8, 1, true);
    var z := Frag(2, pkt, 0, f, 1, 8, 1, false);
    c := Config({a, b, z}, 1, (_: Flow) => 0);
    assert Hiding(a, b, z);
    assert Serves(c, fs) && c.Bucket(a) == c.Bucket(b) == c.Bucket(z);
    hide Hiding, Serves, Config.Bucket, Reachable;
    var st := StuckRun(c, 1, a, b, z);
  }

  /**
    The reassembler leaves no datagram behind, for all traffic of a set of flows and all runs,
    exactly when the flows are ordered.
   */
  lemma ReliableIffOrdered(fs: set<Flow>)
    ensures (forall c :: Serves(c, fs) ==> Reliable(c)) <==> AllOrdered(fs)
  {
    hide Ordered, Serves, Reliable;
    if AllOrdered(fs) {
      forall c | Serves(c, fs) ensures Reliable(c) { OrderedReliable(c, fs); }
    } else {
      var f, g :| f in fs && g in fs && !Ordered(f, g);
      var c := UnorderedUnreliable(fs, f, g);
    }
  }
}
