/**
  No missed completion: if fragments do not overlap and the flows of each bucket are ordered, no
  bucket ever holds a complete datagram.  Together with conservation this makes every datagram
  come out exactly once.
 */
module ReassComplete {
  import opened Basics
  import opened FragOrder
  import opened FragSort
  import opened FragExtract
  import opened ReassState
  import opened ReassLinks
  import opened ReassPlaces
  import opened ReassSafety

  /** Fragments do not overlap, and flows that share a bucket are ordered. */
  ghost predicate Tame(c: Config)
    requires c.buckets > 0
  {
    && Sane(c.universe)
    && forall a, b :: a in c.universe && b in c.universe && c.Bucket(a) == c.Bucket(b) ==> Ordered(a.flow, b.flow)
  }

  /** What a thread knows about its list after a vain attempt at reassembly. */
  ghost predicate Settled(th: Thread) {
    match th
    case Redo(_, _, _, _, dont, s) => dont ==> !HasDatagram(s)
    case Loaded(_, _, _, _, dont, oldfl, s, _) => dont ==> oldfl.tail.None? && !HasDatagram(s)
    case Extracting(_, _, _, changed, s) => !changed && HasDatagram(s) ==> Extract(s).Found?
    case Sweeping(_, _, _, kept, s) => Swept(s, kept)
    case _ => true
  }

  /** Garbage collection has reached the boundary between two flows of a list in which flows are not mixed. */
  ghost predicate Swept(s: seq<Frag>, k: nat) {
    Contiguous(s) && k <= |s| && (0 < k < |s| ==> !EqualFlow(s[k - 1], s[k]))
  }

  lemma SweepStart(c: Config, w: Map, s: seq<Frag>, p: Place, b: nat, now: nat)
    requires c.Valid() && Tame(c) && w.Keys == c.universe && Holds(w, s, p) && Routed(c, s, b)
    ensures Swept(Sort(s, now), 0)
  {
    hide Sort;
    var u := BucketSet(c, b);
    assert Sane(u) && FlowsOrdered(u) && Within(s, u);
    SortSorts(s, u, now);
    SortPermutes(s, now);
    PermutedMembers(s, Sort(s, now));
    SortedContiguous(Sort(s, now), u, now);
  }

  lemma SweepKeep(s: seq<Frag>, k: nat)
    requires Swept(s, k) && k < |s|
    ensures Swept(s, RunEnd(s, k))
  {
    hide RunEnd, EqualFlow;
    var m := RunEnd(s, k);
    if m < |s| { LastOfRun(s, k); }
  }

  lemma LastOfRun(s: seq<Frag>, k: nat)
    requires k < |s| && RunEnd(s, k) < |s|
    ensures !EqualFlow(s[RunEnd(s, k) - 1], s[RunEnd(s, k)])
  {
    var m := RunEnd(s, k);
    assert EqualFlow(s[k], s[m - 1]);
  }

  /** What is swept away at a boundary is the whole flow: no other fragment of it is in the list. */
  lemma SweepWhole(s: seq<Frag>, k: nat, i: nat)
    requires Swept(s, k) && k < |s| && i < |s|
    ensures EqualFlow(s[k], s[i]) <==> k <= i < RunEnd(s, k)
  {
    hide RunEnd;
    if i >= k {
      RunIsFlow(s, k, i);
    } else {
      assert i < k - 1 ==> Between(i, k - 1, k);
    }
  }

  lemma SweepSlice(s: seq<Frag>, k: nat, x: Frag)
    requires Swept(s, k) && k < |s| && x in s
    ensures x in s[k..RunEnd(s, k)] <==> EqualFlow(s[k], x)
  {
    hide RunEnd, Swept, EqualFlow;
    var m := RunEnd(s, k);
    forall j | 0 <= j < |s| ensures EqualFlow(s[k], s[j]) <==> k <= j < m { SweepWhole(s, k, j); }
    var j :| 0 <= j < |s| && s[j] == x;
    if EqualFlow(s[k], x) { assert s[k..m][j - k] == x; }
  }

  lemma SweepDrop(s: seq<Frag>, k: nat)
    requires Swept(s, k) && k < |s|
    ensures Swept(Without(s, k, RunEnd(s, k)), k)
  {
    hide RunEnd;
    var m := RunEnd(s, k);
    var r := Without(s, k, m);
    forall a, b, c | 0 <= a && Between(a, b, c) && c < |r| && EqualFlow(r[a], r[c]) ensures EqualFlow(r[a], r[b]) {
      assert Between(Skip(a, k, m), Skip(b, k, m), Skip(c, k, m));
      assert r[a] == s[Skip(a, k, m)] && r[b] == s[Skip(b, k, m)] && r[c] == s[Skip(c, k, m)];
    }
    if 0 < k < |r| {
      assert r[k - 1] == s[k - 1] && r[k] == s[m];
      assert Between(k - 1, k, m);
    }
  }

  function Skip(i: nat, k: nat, m: nat): (j: nat)
    requires k <= m
  {
    if i < k then i else i + (m - k)
  }

  ghost predicate NoneComplete(chains: seq<seq<Frag>>) {
    forall b :: 0 <= b < |chains| ==> !HasDatagram(chains[b])
  }

  ghost predicate AllSettled(st: State) {
    NoneComplete(st.chains) && forall t :: 0 <= t < |st.threads| ==> Settled(st.threads[t])
  }

  lemma NoneInEmpty()
    ensures !HasDatagram([])
  {
    forall d | Datagram(d) ensures !Included(d, []) { assert d[0] in d; }
  }

  /** A bucket's list is published without an attempt at reassembly only if it holds no datagram. */
  lemma PublishSettled(c: Config, st: State, w: Map, e: Event)
    requires c.Valid() && Tame(c) && Placed(c, st, w) && AllGood(c, st) && AllSettled(st)
    requires Enabled(c, st, e) && e.Publish? && st.words[st.threads[e.t].b] == st.threads[e.t].oldfl
    ensures !HasDatagram(st.threads[e.t].list + st.chains[st.threads[e.t].b])
  {
    hide HasDatagram, Linked, Routed;
    var th := st.threads[e.t];
    var chain := st.chains[th.b];
    assert Settled(th) && ThreadGood(c, st.links, th) && BucketGood(c, st, th.b);
    if th.dont {
      assert th.list + chain == th.list;
    } else {
      assert Holds(w, th.List(), WithThread(e.t)) && Holds(w, chain, InBucket(th.b));
      SummaryAppend(th.oldfl, th.frags, th.now, th.list, chain);
      SummaryRulesOut(NewWord(th.oldfl, th.frags, th.now), th.list + chain);
    }
  }

  ghost function BucketSet(c: Config, b: nat): (u: set<Frag>)
    requires c.buckets > 0
  {
    set x | x in c.universe && c.Bucket(x) == b
  }

  /** A sorted bucket yields a datagram if it holds one. */
  lemma SortSettled(c: Config, w: Map, s: seq<Frag>, p: Place, b: nat, now: nat)
    requires c.Valid() && Tame(c) && w.Keys == c.universe && Holds(w, s, p) && Routed(c, s, b)
    ensures HasDatagram(Sort(s, now)) ==> Extract(Sort(s, now)).Found?
  {
    hide HasDatagram, Sort, Extract;
    var u := BucketSet(c, b);
    assert Sane(u) && FlowsOrdered(u) && Within(s, u);
    SortExtractExact(s, u, now);
    SortPermutes(s, now);
    PermutedMembers(s, Sort(s, now));
    SameDatagrams(s, Sort(s, now));
  }

  lemma SettledThread(c: Config, st: State, w: Map, e: Event)
    requires c.Valid() && Tame(c) && Placed(c, st, w) && AllGood(c, st) && AllSettled(st) && Enabled(c, st, e)
    ensures Settled(Apply(c, st, e).threads[e.t])
  {
    hide HasDatagram, Extract, Sort, Holds, Good, Update, Link, Bypass, Without, RunEnd, Count, Earliest, Swept;
    var th := st.threads[e.t];
    assert Settled(th) && ThreadGood(c, st.links, th) && Holds(w, th.List(), WithThread(e.t));
    if e.SortList? {
      GoodRouted(c, st.links, th.b, th.newfl, th.list, None);
      SortSettled(c, w, th.list, WithThread(e.t), th.b, th.now);
    } else if e.GcTake? {
      assert BucketGood(c, st, th.b) && Holds(w, st.chains[th.b], InBucket(th.b));
      GoodRouted(c, st.links, th.b, st.words[th.b], st.chains[th.b], None);
      SweepStart(c, w, st.chains[th.b], InBucket(th.b), th.b, th.now);
    } else if e.Keep? {
      SweepKeep(th.list, th.kept);
    } else if e.Drop? {
      SweepDrop(th.list, th.kept);
    }
  }

  lemma GoodRouted(c: Config, l: Links, b: nat, w: Word, s: seq<Frag>, end: Option<nat>)
    requires c.buckets > 0 && Good(c, l, b, w, s, end)
    ensures Routed(c, s, b)
  {
  }

  lemma SettledBuckets(c: Config, st: State, w: Map, e: Event)
    requires c.Valid() && Tame(c) && Placed(c, st, w) && AllGood(c, st) && AllSettled(st) && Enabled(c, st, e)
    ensures NoneComplete(Apply(c, st, e).chains)
  {
    hide HasDatagram, Extract, Sort, Holds, Good, Update, Link, Bypass, Without, RunEnd, Count, Earliest, AllGood,
        WaitForMore;
    NoneInEmpty();
    if e.Publish? && st.words[st.threads[e.t].b] == st.threads[e.t].oldfl { PublishSettled(c, st, w, e); }
  }

  lemma SettledStep(c: Config, st: State, w: Map, e: Event)
    requires c.Valid() && Tame(c) && Placed(c, st, w) && AllGood(c, st) && AllSettled(st) && Enabled(c, st, e)
    ensures AllSettled(Apply(c, st, e))
  {
    SettledThread(c, st, w, e);
    SettledBuckets(c, st, w, e);
    OneThread(c, st, e);
    hide Settled, NoneComplete, Apply, Extract, WaitForMore, Placed, AllGood, Tame;
  }

  /** A step changes the state of its own thread only. */
  lemma OneThread(c: Config, st: State, e: Event)
    requires c.Valid() && Shaped(c, st) && Enabled(c, st, e)
    ensures var st' := Apply(c, st, e); st'.threads == st.threads[e.t := st'.threads[e.t]]
  {
    hide Extract, Sort, Update, Link, Bypass, Without, RunEnd, Count, Earliest, WaitForMore, NewWord;
  }

  ghost predicate OnlyDatagrams(out: seq<seq<Frag>>) { forall i :: 0 <= i < |out| ==> Datagram(out[i]) }

  /** Whatever is sent is a complete datagram. */
  lemma OutputStep(c: Config, st: State, e: Event)
    requires c.Valid() && Shaped(c, st) && Enabled(c, st, e) && OnlyDatagrams(st.out)
    ensures OnlyDatagrams(Apply(c, st, e).out)
  {
    hide Datagram, Locate, Sort, Update, Link, Bypass, Without, RunEnd, Count, Earliest, WaitForMore, NewWord;
    if e.ExtractOne? { LocateSound(st.threads[e.t].list, 0); }
  }

  /** A thread that has loaded a bucket would still find the same word there if nobody had changed the bucket since. */
  ghost predicate Current(st: State, th: Thread) {
    (th.Loaded? || th.GcLoaded?) && th.b < |st.versions| == |st.words| ==>
      th.version <= st.versions[th.b] && (th.version == st.versions[th.b] ==> st.words[th.b] == th.oldfl)
  }

  ghost predicate AllCurrent(st: State) { forall t :: 0 <= t < |st.threads| ==> Current(st, st.threads[t]) }

  predicate Unchanged(st: State, st': State, b: nat)
    requires b < |st.words| == |st'.words| == |st.versions| == |st'.versions|
  {
    st'.words[b] == st.words[b] && st'.versions[b] == st.versions[b]
  }

  /** A bucket changes exactly with a successful compare-and-swap, which advances its version. */
  lemma VersionStep(c: Config, st: State, e: Event, b: nat)
    requires c.Valid() && Shaped(c, st) && Enabled(c, st, e) && b < c.buckets
    ensures var st', th := Apply(c, st, e), st.threads[e.t];
            && Shaped(c, st')
            && if (e.Publish? || e.Take? || e.GcTake?) && th.b == b && st.words[b] == th.oldfl
               then st'.versions[b] == st.versions[b] + 1 &&
                   (st'.threads[e.t].Idle? || st'.threads[e.t].Taken? || st'.threads[e.t].Sweeping?)
               else Unchanged(st, st', b)
  {
    hide Extract, Sort, Update, Link, Bypass, Without, RunEnd, Count, Earliest, WaitForMore, NewWord;
  }

  lemma CurrentStep(c: Config, st: State, e: Event)
    requires c.Valid() && Shaped(c, st) && Enabled(c, st, e) && AllCurrent(st)
    ensures AllCurrent(Apply(c, st, e))
  {
    var st' := Apply(c, st, e);
    OneThread(c, st, e);
    OwnCurrent(c, st, e);
    forall b | 0 <= b < c.buckets
        ensures st'.versions[b] > st.versions[b] || Unchanged(st, st', b) { VersionStep(c, st, e, b); }
    forall t | 0 <= t < |st'.threads| ensures Current(st', st'.threads[t]) {
      hide Apply, Enabled;
      if t != e.t { assert Current(st, st.threads[t]); }
    }
  }

  lemma OwnCurrent(c: Config, st: State, e: Event)
    requires c.Valid() && Shaped(c, st) && Enabled(c, st, e) && AllCurrent(st)
    ensures Shaped(c, Apply(c, st, e)) && Current(Apply(c, st, e), Apply(c, st, e).threads[e.t])
  {
    hide Extract, Sort, Update, Link, Bypass, Without, RunEnd, Count, Earliest, WaitForMore, NewWord;
    assert Current(st, st.threads[e.t]);
  }

  /** Everything that holds in every reachable state. */
  ghost predicate Safe(c: Config, st: State, w: Map) {
    && c.Valid() && Placed(c, st, w) && AllGood(c, st)
    && OnlyDatagrams(st.out) && AllCurrent(st)
    && (Tame(c) ==> AllSettled(st))
  }

  lemma SafeInit(c: Config, st: State) returns (w: Map)
    requires Init(c, st)
    ensures Safe(c, st, w)
  {
    w := map x | x in c.universe :: Waiting;
    forall b | 0 <= b < c.buckets ensures BucketGood(c, st, b) { GoodEmpty(c, st.links, b); }
    NoneInEmpty();
  }

  lemma SafeStep(c: Config, st: State, e: Event, w: Map) returns (w': Map)
    requires Safe(c, st, w) && Enabled(c, st, e)
    ensures Safe(c, Apply(c, st, e), w')
  {
    w' := PlacedStep(c, st, e, w);
    GoodStep(c, st, w, e);
    OutputStep(c, st, e);
    CurrentStep(c, st, e);
    if Tame(c) { SettledStep(c, st, w, e); }
    hide AllGood, OnlyDatagrams, AllCurrent, AllSettled, Tame, HoldsBuckets, HoldsThreads, HoldsOut, Holds, Enabled,
        Apply;
  }

  /** Every state of every run is safe. */
  lemma {:induction false} RunSafe(c: Config, run: seq<State>, i: nat) returns (w: Map)
    requires Run(c, run) && i < |run|
    ensures Safe(c, run[i], w)
    decreases i
  {
    hide Safe, Enabled, Apply;
    if i == 0 {
      w := SafeInit(c, run[0]);
    } else {
      var v := RunSafe(c, run, i - 1);
      assert Next(c, run[i - 1], run[i]);
      var e :| Enabled(c, run[i - 1], e) && run[i] == Apply(c, run[i - 1], e);
      w := SafeStep(c, run[i - 1], e, v);
    }
  }
}
