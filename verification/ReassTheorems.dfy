/**
  The main results about the reassembler: statements over every run, that is, every
  interleaving of any number of threads adding fragments and collecting garbage.
 */
module ReassTheorems {
  import opened IpHeader
  import opened FragOrder
  import opened FragSort
  import opened FragExtract
  import opened ReassState
  import opened ReassLinks
  import opened ReassPlaces
  import opened ReassSafety
  import opened ReassComplete

  /** The fragments at a place, as the state itself says. */
  predicate Occurs(st: State, p: Place, x: Frag) {
    match p
    case Waiting => x in st.waiting
    case InBucket(b) => b < |st.chains| && x in st.chains[b]
    case WithThread(t) => t < |st.threads| && x in st.threads[t].List()
    case Output(i) => i < |st.out| && x in st.out[i]
    case Freed => x in st.freed
  }

  lemma PlacedOccurs(c: Config, st: State, w: Map, x: Frag, p: Place)
    requires Placed(c, st, w) && x in c.universe
    ensures Occurs(st, p, x) <==> w[x] == p
  {
    match p
    case InBucket(b) => if b < |st.chains| { assert Holds(w, st.chains[b], p); }
    case WithThread(t) => if t < |st.threads| { assert Holds(w, st.threads[t].List(), p); }
    case Output(i) => if i < |st.out| { assert Holds(w, st.out[i], p); }
    case _ =>
  }

  /** Conservation: at every moment of every run each fragment is in exactly one place. */
  lemma Conserved(c: Config, run: seq<State>, i: nat, x: Frag)
    requires Run(c, run) && i < |run| && x in c.universe
    ensures exists p :: Occurs(run[i], p, x) && forall q :: Occurs(run[i], q, x) ==> q == p
  {
    hide AllGood, Occurs, Placed, AllCurrent, AllSettled, OnlyDatagrams;
    var w := RunSafe(c, run, i);
    InMap(c, run[i], w, x);
    forall p ensures Occurs(run[i], p, x) <==> w[x] == p {
      PlacedOccurs(c, run[i], w, x, p);
    }
    assert Occurs(run[i], w[x], x);
  }

  lemma InMap(c: Config, st: State, w: Map, x: Frag)
    requires Placed(c, st, w) && x in c.universe
    ensures x in w
  {
  }

  /** ... and never twice in the same list. */
  lemma NeverTwice(c: Config, run: seq<State>, i: nat)
    requires Run(c, run) && i < |run|
    ensures Shaped(c, run[i]) && Distinct(run[i].freed)
    ensures forall b :: 0 <= b < c.buckets ==> Distinct(run[i].chains[b])
    ensures forall t :: 0 <= t < |run[i].threads| ==> Distinct(run[i].threads[t].List())
    ensures forall j :: 0 <= j < |run[i].out| ==> Distinct(run[i].out[j])
  {
    var w := RunSafe(c, run, i);
    forall b | 0 <= b < c.buckets ensures Distinct(run[i].chains[b]) { assert Holds(w, run[i].chains[b], InBucket(b)); }
    forall t | 0 <= t < |run[i].threads| ensures Distinct(run[i].threads[t].List()) {
      assert Holds(w, run[i].threads[t].List(), WithThread(t));
    }
    forall j | 0 <= j < |run[i].out| ensures Distinct(run[i].out[j]) { assert Holds(w, run[i].out[j], Output(j)); }
  }

  /**
    Following the links from a bucket word visits exactly the fragments of the bucket, once each,
    and ends; so chains have no cycle.
   */
  lemma ChainInMemory(c: Config, run: seq<State>, i: nat, b: nat, n: nat)
    requires Run(c, run) && i < |run| && b < c.buckets
    ensures var st := run[i];
            && b < |st.words| == |st.chains|
            && st.words[b].tail == TailOf(st.chains[b])
            && (n >= |st.chains[b]| ==>
                  && |Walk(st.links, st.words[b].tail, n)| == |st.chains[b]|
                  && forall k :: 0 <= k < |st.chains[b]| ==>
                      Walk(st.links, st.words[b].tail, n)[k] == st.chains[b][k].id)
  {
    var w := RunSafe(c, run, i);
    assert BucketGood(c, run[i], b);
    if n >= |run[i].chains[b]| { LinkedWalk(run[i].links, run[i].chains[b], n); }
  }

  /** The lengths in a bucket word bound those of the fragments in the bucket. */
  lemma BucketSummary(c: Config, run: seq<State>, i: nat, b: nat)
    requires Run(c, run) && i < |run| && b < c.buckets
    ensures var st := run[i];
            && b < |st.words| == |st.chains|
            && Min(IP_OCTET_MAX, SumOct(st.chains[b])) <= st.words[b].part <= IP_OCTET_MAX
            && forall k :: 0 <= k < |st.chains[b]| ==> st.words[b].whole <= st.chains[b][k].Whole()
  {
    var w := RunSafe(c, run, i);
    assert BucketGood(c, run[i], b);
  }

  /** No bucket ever holds all fragments of a datagram. */
  lemma NoneAtRest(c: Config, run: seq<State>, i: nat, b: nat)
    requires Run(c, run) && i < |run| && b < c.buckets && Tame(c)
    ensures b < |run[i].chains| && !HasDatagram(run[i].chains[b])
  {
    var w := RunSafe(c, run, i);
  }

  /**
    Garbage collection frees whole flows only: what a step frees are all fragments of one flow that
    the thread holds.
   */
  lemma FlowsFreedWhole(c: Config, run: seq<State>, i: nat, t: nat, x: Frag)
    requires Run(c, run) && i < |run| && Tame(c) && c.Valid() && Shaped(c, run[i]) && Enabled(c, run[i], Drop(t))
    ensures var th, st' := run[i].threads[t], Apply(c, run[i], Drop(t));
            && st'.freed == run[i].freed + th.list[th.kept..RunEnd(th.list, th.kept)]
            && (x in th.list ==> (x in th.list[th.kept..RunEnd(th.list, th.kept)] <==> EqualFlow(th.list[th.kept], x)))
  {
    SweptAt(c, run, i, t);
    hide RunEnd, Run, Tame, EqualFlow, Swept;
    var th := run[i].threads[t];
    if x in th.list { SweepSlice(th.list, th.kept, x); }
  }

  lemma SweptAt(c: Config, run: seq<State>, i: nat, t: nat)
    requires Run(c, run) && i < |run| && Tame(c) && t < |run[i].threads| && run[i].threads[t].Sweeping?
    ensures Swept(run[i].threads[t].list, run[i].threads[t].kept)
  {
    hide Swept, HasDatagram, Tame;
    var w := RunSafe(c, run, i);
    assert Settled(run[i].threads[t]);
  }

  /** The thread's state is the same from i to j. */
  ghost predicate Stays(run: seq<State>, i: nat, j: nat, t: nat, th: Thread)
    requires j < |run|
  {
    forall m {:trigger run[m]} :: i <= m <= j ==> t < |run[m].threads| && run[m].threads[t] == th
  }

  /**
    Every retry is caused by another thread: if thread t loads a bucket at step i and finds the
    bucket changed when it gets to its compare-and-swap at step j, then a step in between was a
    successful compare-and-swap on that bucket by another thread.
   */
  lemma RetryCaused(c: Config, run: seq<State>, i: nat, j: nat, t: nat, th: Thread) returns (k: nat)
    requires Run(c, run) && i < j < |run| && Loads(c, run[i], run[i + 1], t)
    requires Stays(run, i + 1, j, t, th) && th.Loaded? && th.b < c.buckets
    requires |run[j].words| == c.buckets && run[j].words[th.b] != th.oldfl
    ensures i < k < j && ChangedByOther(c, run[k], run[k + 1], th.b, t)
  {
    hide Loads, Run, ChangedByOther;
    assert run[i + 1].threads[t] == th && run[j].threads[t] == th;
    LoadVersion(c, run[i], run[i + 1], t);
    VersionAt(c, run, j, t);
    RunShaped(c, run, i + 1);
    k := FirstChange(c, run, i + 1, j, t, th);
  }

  /** The step is a load of a bucket by a thread that adds fragments. */
  ghost predicate Loads(c: Config, st: State, st': State, t: nat) {
    c.Valid() && Shaped(c, st) && Enabled(c, st, Load(t)) && st' == Apply(c, st, Load(t))
  }

  lemma LoadVersion(c: Config, st: State, st': State, t: nat)
    requires Loads(c, st, st', t)
    ensures t < |st'.threads| && st'.threads[t].Loaded? && st'.threads[t].b < |st'.versions|
    ensures st'.threads[t].version == st'.versions[st'.threads[t].b]
  {
  }

  lemma RunShaped(c: Config, run: seq<State>, i: nat)
    requires Run(c, run) && i < |run|
    ensures c.Valid() && Shaped(c, run[i])
  {
    var w := RunSafe(c, run, i);
  }

  lemma VersionAt(c: Config, run: seq<State>, j: nat, t: nat)
    requires Run(c, run) && j < |run| && t < |run[j].threads| && run[j].threads[t].Loaded?
    ensures Shaped(c, run[j]) && Current(run[j], run[j].threads[t])
  {
    var w := RunSafe(c, run, j);
  }

  /** The step is a successful compare-and-swap on the bucket by another thread. */
  ghost predicate ChangedByOther(c: Config, st: State, st': State, b: nat, t: nat) {
    && c.Valid() && Shaped(c, st)
    && exists e :: Enabled(c, st, e) && st' == Apply(c, st, e) && e.t != t && Swaps(st, e, b)
  }

  predicate Swaps(st: State, e: Event, b: nat) {
    && (e.Publish? || e.Take? || e.GcTake?) && e.t < |st.threads|
    && (st.threads[e.t].Loaded? || st.threads[e.t].GcLoaded?) && st.threads[e.t].b == b < |st.words|
    && st.words[b] == st.threads[e.t].oldfl
  }

  lemma {:induction false} FirstChange(c: Config, run: seq<State>, i: nat, j: nat, t: nat, th: Thread) returns (k: nat)
    requires Run(c, run) && i <= j < |run| && Stays(run, i, j, t, th) && th.Loaded? && th.b < c.buckets
    requires Shaped(c, run[i]) && Shaped(c, run[j]) && run[j].versions[th.b] != run[i].versions[th.b]
    ensures i <= k < j && ChangedByOther(c, run[k], run[k + 1], th.b, t)
    decreases j - i
  {
    hide Enabled, Apply, Init;
    assert Next(c, run[i], run[i + 1]);
    var e :| Enabled(c, run[i], e) && run[i + 1] == Apply(c, run[i], e);
    SwapStep(c, run[i], e, th.b);
    if Swaps(run[i], e, th.b) {
      assert run[i + 1].threads[t] == th;
      k := i;
    } else {
      k := FirstChange(c, run, i + 1, j, t, th);
    }
  }

  lemma SwapStep(c: Config, st: State, e: Event, b: nat)
    requires c.Valid() && Shaped(c, st) && Enabled(c, st, e) && b < c.buckets
    ensures Shaped(c, Apply(c, st, e))
    ensures !Swaps(st, e, b) ==> Apply(c, st, e).versions[b] == st.versions[b]
    ensures Swaps(st, e, b) ==> e.t < |Apply(c, st, e).threads| && !Apply(c, st, e).threads[e.t].Loaded?
  {
    VersionStep(c, st, e, b);
    OneThread(c, st, e);
    hide Apply, Extract, WaitForMore;
  }
}
