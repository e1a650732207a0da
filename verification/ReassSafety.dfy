/**
  What every step of the reassembler keeps: memory holds each list as the machine describes it,
  bucket words and private words summarise their lists, and a list holds only fragments of its
  bucket.  A step writes no link that another thread or a bucket depends on.
 */
module ReassSafety {
  import opened Basics
  import opened FragOrder
  import opened FragSort
  import opened FragExtract
  import opened ReassState
  import opened ReassLinks
  import opened ReassPlaces

  ghost predicate Routed(c: Config, s: seq<Frag>, b: nat)
    requires c.buckets > 0
  {
    forall i :: 0 <= i < |s| ==> c.Bucket(s[i]) == b
  }

  /** Memory holds the list of a bucket, continued at `end`, and the word describes it. */
  ghost predicate Good(c: Config, links: Links, b: nat, w: Word, s: seq<Frag>, end: Option<nat>)
    requires c.buckets > 0
  {
    && b < c.buckets && w.tail == TailOf(s)
    && Linked(links, s, end) && Summary(w, s) && Routed(c, s, b)
  }

  ghost predicate ThreadGood(c: Config, links: Links, th: Thread)
    requires c.buckets > 0
  {
    match th
    case Idle => true
    case Redo(b, frags, head, _, _, s) => s != [] && head == HeadOf(s) && Good(c, links, b, frags, s, None)
    case Loaded(b, frags, head, _, _, oldfl, s, _) =>
        s != [] && head == HeadOf(s) && Good(c, links, b, frags, s, oldfl.tail)
    case Taken(b, newfl, _, s) => s != [] && Good(c, links, b, newfl, s, None)
    case Extracting(b, newfl, _, _, s) => Good(c, links, b, newfl.(tail := TailOf(s)), s, None)
    case GcLoaded(b, _, _, _) => b < c.buckets
    case Sweeping(b, newfl, _, kept, s) => kept <= |s| && Good(c, links, b, newfl, s, None)
  }

  ghost predicate BucketGood(c: Config, st: State, b: nat)
    requires c.buckets > 0 && Shaped(c, st) && b < c.buckets
  {
    Good(c, st.links, b, st.words[b], st.chains[b], None)
  }

  ghost predicate AllGood(c: Config, st: State)
    requires c.buckets > 0 && Shaped(c, st)
  {
    && (forall b :: 0 <= b < c.buckets ==> BucketGood(c, st, b))
    && (forall t :: 0 <= t < |st.threads| ==> ThreadGood(c, st.links, st.threads[t]))
  }

  lemma GoodFrame(c: Config, l: Links, l': Links, b: nat, w: Word, s: seq<Frag>, end: Option<nat>)
    requires c.buckets > 0 && Good(c, l, b, w, s, end) && SameLinks(l, l', s)
    ensures Good(c, l', b, w, s, end)
  {
    LinkedFrame(l, l', s, end);
  }

  lemma ThreadFrame(c: Config, l: Links, l': Links, th: Thread)
    requires c.buckets > 0 && ThreadGood(c, l, th) && SameLinks(l, l', th.List())
    ensures ThreadGood(c, l', th)
  {
    hide Good, SameLinks;
    match th
    case Idle =>
    case GcLoaded(_, _, _, _) =>
    case Redo(b, frags, _, _, _, s) => GoodFrame(c, l, l', b, frags, s, None);
    case Loaded(b, frags, _, _, _, oldfl, s, _) => GoodFrame(c, l, l', b, frags, s, oldfl.tail);
    case Taken(b, newfl, _, s) => GoodFrame(c, l, l', b, newfl, s, None);
    case Extracting(b, newfl, _, _, s) => GoodFrame(c, l, l', b, newfl.(tail := TailOf(s)), s, None);
    case Sweeping(b, newfl, _, _, s) => GoodFrame(c, l, l', b, newfl, s, None);
  }

  /** A bucket is taken for garbage collection, and its links are rewritten, by this step. */
  predicate Collects(st: State, e: Event, b: int) {
    e.GcTake? && e.t < |st.threads| && st.threads[e.t].GcLoaded? && st.threads[e.t].b == b
  }

  /** The fragment is held by another thread, or by a bucket that the step does not take. */
  predicate Foreign(st: State, e: Event, p: Place) {
    || (p.WithThread? && p.t != e.t)
    || (p.InBucket? && !Collects(st, e, p.b))
  }

  /** No link of a foreign fragment is written. */
  ghost predicate OnlyOwn(st: State, st': State, w: Map, e: Event) {
    forall x :: x in w && Foreign(st, e, w[x]) ==> SameLink(st.links, st'.links, x)
  }

  /** Only links of the given fragments are written. */
  ghost predicate Writes(l: Links, l': Links, s: seq<Frag>) {
    forall x: Frag :: x.id !in Ids(s) ==> SameLink(l, l', x)
  }

  ghost function Ids(s: seq<Frag>): (r: set<nat>)
    ensures forall i :: 0 <= i < |s| ==> s[i].id in r
  {
    set i | 0 <= i < |s| :: s[i].id
  }

  lemma HeldAddressed(c: Config, w: Map, s: seq<Frag>, p: Place)
    requires c.Valid() && w.Keys == c.universe && Holds(w, s, p)
    ensures Addressed(s)
  {
    DistinctAddressed(c, s);
  }

  /** A step that writes only links of fragments that are not foreign. */
  lemma WriteOwn(c: Config, st: State, st': State, w: Map, e: Event, s: seq<Frag>, p: Place)
    requires c.Valid() && w.Keys == c.universe && !Foreign(st, e, p)
    requires forall i :: 0 <= i < |s| ==> s[i] in w && w[s[i]] == p
    requires Writes(st.links, st'.links, s)
    ensures OnlyOwn(st, st', w, e)
  {
    hide SameLink;
    forall x | x in w && Foreign(st, e, w[x]) ensures SameLink(st.links, st'.links, x) {
      forall i | 0 <= i < |s| ensures s[i].id != x.id {
        assert s[i] in w && s[i] != x;
      }
    }
  }

  /** All other threads and untouched buckets stay as good as they were. */
  lemma OthersGood(c: Config, st: State, st': State, w: Map, e: Event)
    requires c.Valid() && Placed(c, st, w) && AllGood(c, st) && OnlyOwn(st, st', w, e)
    requires e.t < |st.threads|
    ensures forall t :: 0 <= t < |st.threads| && t != e.t ==> ThreadGood(c, st'.links, st.threads[t])
    ensures forall b :: 0 <= b < c.buckets && !Collects(st, e, b) ==>
        Good(c, st'.links, b, st.words[b], st.chains[b], None)
  {
    hide Good, SameLink, ThreadGood, Collects;
    forall t | 0 <= t < |st.threads| && t != e.t ensures ThreadGood(c, st'.links, st.threads[t]) {
      var s := st.threads[t].List();
      assert Holds(w, s, WithThread(t));
      forall i | 0 <= i < |s| ensures SameLink(st.links, st'.links, s[i]) { assert s[i] in s; }
      ThreadFrame(c, st.links, st'.links, st.threads[t]);
    }
    forall b | 0 <= b < c.buckets && !Collects(st, e, b)
        ensures Good(c, st'.links, b, st.words[b], st.chains[b], None) {
      var s := st.chains[b];
      assert Holds(w, s, InBucket(b));
      forall i | 0 <= i < |s| ensures SameLink(st.links, st'.links, s[i]) { assert s[i] in s; }
      assert BucketGood(c, st, b);
      GoodFrame(c, st.links, st'.links, b, st.words[b], s, None);
    }
  }

  lemma GoodHead(c: Config, l: Links, b: nat, w: Word, s: seq<Frag>, end: Option<nat>, end': Option<nat>)
    requires c.buckets > 0 && Good(c, l, b, w, s, end) && s != [] && Addressed(s)
    ensures Good(c, l[HeadOf(s) := end'], b, w, s, end')
    ensures Writes(l, l[HeadOf(s) := end'], s)
  {
    hide Summary;
    LinkedHead(l, s, end, end');
  }

  /** A private list in front of the list it was linked to. */
  lemma GoodJoin(c: Config, l: Links, b: nat, oldfl: Word, frags: Word, now: nat, s: seq<Frag>, u: seq<Frag>)
    requires c.buckets > 0 && s != []
    requires Good(c, l, b, frags, s, oldfl.tail) && Good(c, l, b, oldfl, u, None)
    ensures Good(c, l, b, NewWord(oldfl, frags, now), s + u, None)
  {
    hide Summary, Linked, Earliest;
    LinkedAppend(l, s, u);
    SummaryAppend(oldfl, frags, now, s, u);
  }

  lemma GoodSort(c: Config, l: Links, b: nat, w: Word, s: seq<Frag>, now: nat)
    requires c.buckets > 0 && Good(c, l, b, w, s, None) && Addressed(Sort(s, now))
    ensures var r := Sort(s, now);
            Good(c, Link(l, r), b, w.(tail := TailOf(r)), r, None) && Writes(l, Link(l, r), r)
  {
    hide Summary, Linked, Sort, Link, SameLink;
    var r := Sort(s, now);
    SummarySort(w, s, now);
    LinkAll(l, r);
    assert Summary(w.(tail := TailOf(r)), r) by { SummaryTail(w, TailOf(r), r); }
    SortPermutes(s, now);
    PermutedMembers(s, r);
    forall i | 0 <= i < |r| ensures c.Bucket(r[i]) == b { assert r[i] in s; }
    forall x: Frag | x.id !in Ids(r) ensures SameLink(l, Link(l, r), x) { LinkOther(l, r, x); }
  }

  /** The summary does not depend on the tail and the arrival time of a word. */
  lemma SummaryTail(w: Word, tail: Option<nat>, s: seq<Frag>)
    requires Summary(w, s)
    ensures Summary(w.(tail := tail), s)
    ensures forall e {:trigger w.(tail := tail, earliest := e)} :: Summary(w.(tail := tail, earliest := e), s)
  {
  }

  /** Cutting a slice out of a list; the rest is good whether or not the slice is unlinked from it. */
  lemma GoodCut(c: Config, l: Links, b: nat, w: Word, s: seq<Frag>, k: nat, m: nat)
    requires c.buckets > 0 && Good(c, l, b, w, s, None) && Addressed(s) && k < m <= |s|
    ensures var r, l' := Without(s, k, m), Bypass(l, s, k, m);
            && Good(c, l', b, w.(tail := TailOf(r)), r, None) && Writes(l, l', s)
            && Good(c, l'[s[m - 1].id := None], b, w.(tail := TailOf(r)), r, None) &&
                Writes(l, l'[s[m - 1].id := None], s)
  {
    hide Summary, Linked;
    var r, l' := Without(s, k, m), Bypass(l, s, k, m);
    BypassLinked(l, s, k, m);
    SummaryWithout(w, s, k, m);
    SummaryTail(w, TailOf(r), r);
    forall i | 0 <= i < |r| ensures SameLink(l', l'[s[m - 1].id := None], r[i]) {
      assert r[i] == s[if i < k then i else i + (m - k)];
    }
    LinkedFrame(l', l'[s[m - 1].id := None], r, None);
  }

  lemma GoodEmpty(c: Config, l: Links, b: nat)
    requires b < c.buckets
    ensures Good(c, l, b, NULL_WORD, [], None)
  {
  }

  lemma GoodSingle(c: Config, l: Links, f: Frag)
    requires c.Valid() && f in c.universe
    ensures Good(c, l[f.id := None], c.Bucket(f), Word(Some(f.id), f.oct, f.Whole(), f.arrival), [f], None)
    ensures Writes(l, l[f.id := None], [f])
  {
    assert SumOct([f]) == f.oct;
  }

  lemma GoodUpdate(c: Config, l: Links, th: Thread)
    requires c.buckets > 0 && th.Extracting? && ThreadGood(c, l, th)
    ensures Good(c, l, th.b, Update(th), th.list, None)
  {
    hide Summary, Linked, Recount;
    var w := th.newfl.(tail := TailOf(th.list));
    SummaryTail(w, w.tail, th.list);
    assert Summary(w.(tail := w.tail, earliest := th.now), th.list);
    SummaryRecount(w.(earliest := th.now), th.list, th.now, th.list);
  }

  /** Putting a step together: the thread and at most one bucket change. */
  lemma StepGood(c: Config, st: State, st': State, w: Map, e: Event, b: nat)
    requires c.Valid() && Placed(c, st, w) && AllGood(c, st) && OnlyOwn(st, st', w, e)
    requires e.t < |st.threads| == |st'.threads| && st'.threads == st.threads[e.t := st'.threads[e.t]]
    requires Shaped(c, st') && b < c.buckets
    requires forall b' :: 0 <= b' < c.buckets && b' != b ==>
      !Collects(st, e, b') && st'.words[b'] == st.words[b'] && st'.chains[b'] == st.chains[b']
    requires ThreadGood(c, st'.links, st'.threads[e.t])
    requires BucketGood(c, st', b) || (!Collects(st, e, b) && st'.words[b] == st.words[b] &&
        st'.chains[b] == st.chains[b])
    ensures AllGood(c, st')
  {
    hide Good, ThreadGood, HoldsBuckets, HoldsThreads, HoldsOut, Holds, OnlyOwn, Collects;
    OthersGood(c, st, st', w, e);
    forall b' | 0 <= b' < c.buckets ensures BucketGood(c, st', b') {
      if b' != b { assert Good(c, st'.links, b', st.words[b'], st.chains[b'], None); }
    }
  }

  /** The own list is the thread's, and only it is written. */
  lemma OwnListWritten(c: Config, st: State, st': State, w: Map, e: Event)
    requires c.Valid() && Placed(c, st, w) && e.t < |st.threads|
    requires Writes(st.links, st'.links, st.threads[e.t].List())
    ensures OnlyOwn(st, st', w, e)
  {
    hide Writes, OnlyOwn;
    var s := st.threads[e.t].List();
    assert Holds(w, s, WithThread(e.t));
    WriteOwn(c, st, st', w, e, s, WithThread(e.t));
  }

  lemma OwnAddressed(c: Config, st: State, w: Map, t: nat)
    requires c.Valid() && Placed(c, st, w) && t < |st.threads|
    ensures Addressed(st.threads[t].List())
  {
    hide Addressed;
    assert Holds(w, st.threads[t].List(), WithThread(t));
    HeldAddressed(c, w, st.threads[t].List(), WithThread(t));
  }

  lemma NothingWritten(st: State, st': State, w: Map, e: Event)
    requires st'.links == st.links
    ensures OnlyOwn(st, st', w, e)
  {
  }

  lemma SubmitGood(c: Config, st: State, w: Map, e: Event)
    requires c.Valid() && Placed(c, st, w) && AllGood(c, st) && Enabled(c, st, e) && e.Submit?
    ensures AllGood(c, Apply(c, st, e))
    ensures OnlyOwn(st, Apply(c, st, e), w, e)
  {
    hide Good, Writes, OnlyOwn, AllGood;
    var st' := Apply(c, st, e);
    assert e.f in w && w[e.f] == Waiting;
    GoodSingle(c, st.links, e.f);
    WriteOwn(c, st, st', w, e, [e.f], Waiting);
    StepGood(c, st, st', w, e, c.Bucket(e.f));
  }

  lemma LoadGood(c: Config, st: State, w: Map, e: Event)
    requires c.Valid() && Placed(c, st, w) && AllGood(c, st) && Enabled(c, st, e) && e.Load?
    ensures AllGood(c, Apply(c, st, e))
    ensures OnlyOwn(st, Apply(c, st, e), w, e)
  {
    hide Good, Writes, OnlyOwn, Addressed, Holds;
    var th, st' := st.threads[e.t], Apply(c, st, e);
    assert ThreadGood(c, st.links, th);
    OwnAddressed(c, st, w, e.t);
    GoodHead(c, st.links, th.b, th.frags, th.list, None, st.words[th.b].tail);
    OwnListWritten(c, st, st', w, e);
    StepGood(c, st, st', w, e, th.b);
  }

  lemma RetryGood(c: Config, st: State, w: Map, e: Event)
    requires c.Valid() && Placed(c, st, w) && AllGood(c, st) && Enabled(c, st, e) && (e.Publish? || e.Take?)
    requires st.words[st.threads[e.t].b] != st.threads[e.t].oldfl
    ensures AllGood(c, Apply(c, st, e))
    ensures OnlyOwn(st, Apply(c, st, e), w, e)
  {
    hide Good, Writes, OnlyOwn, Addressed, Holds, WaitForMore;
    var th, st' := st.threads[e.t], Apply(c, st, e);
    assert ThreadGood(c, st.links, th);
    OwnAddressed(c, st, w, e.t);
    GoodHead(c, st.links, th.b, th.frags, th.list, th.oldfl.tail, None);
    OwnListWritten(c, st, st', w, e);
    StepGood(c, st, st', w, e, th.b);
  }

  /**
    A compare-and-swap that succeeds finds the list it was prepared for, whatever happened to the
    bucket in between.
   */
  lemma SwapGood(c: Config, st: State, w: Map, e: Event)
    requires c.Valid() && Placed(c, st, w) && AllGood(c, st) && Enabled(c, st, e) && (e.Publish? || e.Take?)
    requires st.words[st.threads[e.t].b] == st.threads[e.t].oldfl
    ensures AllGood(c, Apply(c, st, e))
    ensures OnlyOwn(st, Apply(c, st, e), w, e)
  {
    hide Good, Writes, OnlyOwn, Holds, NewWord, WaitForMore;
    var th, st' := st.threads[e.t], Apply(c, st, e);
    assert ThreadGood(c, st.links, th) && BucketGood(c, st, th.b);
    GoodJoin(c, st.links, th.b, th.oldfl, th.frags, th.now, th.list, st.chains[th.b]);
    GoodEmpty(c, st.links, th.b);
    NothingWritten(st, st', w, e);
    StepGood(c, st, st', w, e, th.b);
  }

  lemma SortedHeld(c: Config, w: Map, s: seq<Frag>, p: Place, now: nat)
    requires c.Valid() && w.Keys == c.universe && Holds(w, s, p)
    ensures Addressed(Sort(s, now))
    ensures forall i :: 0 <= i < |Sort(s, now)| ==> Sort(s, now)[i] in w && w[Sort(s, now)[i]] == p
  {
    hide Addressed, Sort;
    HoldsSorted(w, s, p, now);
    HeldAddressed(c, w, Sort(s, now), p);
  }

  lemma SortGood(c: Config, st: State, w: Map, e: Event)
    requires c.Valid() && Placed(c, st, w) && AllGood(c, st) && Enabled(c, st, e) && e.SortList?
    ensures AllGood(c, Apply(c, st, e))
    ensures OnlyOwn(st, Apply(c, st, e), w, e)
  {
    hide Good, Writes, OnlyOwn, Addressed, Holds, Sort, Link;
    var th, st' := st.threads[e.t], Apply(c, st, e);
    var r := Sort(th.list, th.now);
    assert ThreadGood(c, st.links, th) && Holds(w, th.List(), WithThread(e.t));
    SortedHeld(c, w, th.list, WithThread(e.t), th.now);
    GoodSort(c, st.links, th.b, th.newfl, th.list, th.now);
    WriteOwn(c, st, st', w, e, r, WithThread(e.t));
    GoodBound(c, st.links, th);
    StepGood(c, st, st', w, e, th.b);
  }

  lemma GoodBound(c: Config, l: Links, th: Thread)
    requires c.buckets > 0 && ThreadGood(c, l, th) && !th.Idle?
    ensures th.b < c.buckets
  {
  }

  lemma GcTakeGood(c: Config, st: State, w: Map, e: Event)
    requires c.Valid() && Placed(c, st, w) && AllGood(c, st) && Enabled(c, st, e) && e.GcTake?
    ensures AllGood(c, Apply(c, st, e))
    ensures OnlyOwn(st, Apply(c, st, e), w, e)
  {
    hide Good, Writes, OnlyOwn, Addressed, Holds, Sort, Link;
    var th, st' := st.threads[e.t], Apply(c, st, e);
    if st.words[th.b] == th.oldfl {
      var r := Sort(st.chains[th.b], th.now);
      assert BucketGood(c, st, th.b) && Holds(w, st.chains[th.b], InBucket(th.b));
      SortedHeld(c, w, st.chains[th.b], InBucket(th.b), th.now);
      GoodSort(c, st.links, th.b, th.oldfl, st.chains[th.b], th.now);
      GoodEarliest(c, st'.links, th.b, th.oldfl, TailOf(r), th.now, r);
      GoodEmpty(c, st'.links, th.b);
      WriteOwn(c, st, st', w, e, r, InBucket(th.b));
    } else {
      NothingWritten(st, st', w, e);
      assert BucketGood(c, st', th.b) by { assert BucketGood(c, st, th.b); }
    }
    StepGood(c, st, st', w, e, th.b);
  }

  lemma GoodEarliest(c: Config, l: Links, b: nat, w: Word, tail: Option<nat>, earliest: nat, s: seq<Frag>)
    requires c.buckets > 0 && Good(c, l, b, w.(tail := tail), s, None)
    ensures Good(c, l, b, w.(tail := tail, earliest := earliest), s, None)
  {
  }

  lemma ExtractGood(c: Config, st: State, w: Map, e: Event)
    requires c.Valid() && Placed(c, st, w) && AllGood(c, st) && Enabled(c, st, e) && e.ExtractOne?
    ensures AllGood(c, Apply(c, st, e))
    ensures OnlyOwn(st, Apply(c, st, e), w, e)
  {
    hide Good, Writes, OnlyOwn, Addressed, Holds, Locate, Without, Bypass;
    var th, st' := st.threads[e.t], Apply(c, st, e);
    var p := Locate(th.list, 0);
    assert ThreadGood(c, st.links, th);
    OwnAddressed(c, st, w, e.t);
    var v := th.newfl.(tail := TailOf(th.list));
    GoodCut(c, st.links, th.b, v, th.list, p.from, p.to);
    var r := Without(th.list, p.from, p.to);
    assert v.(tail := TailOf(r)) == th.newfl.(tail := TailOf(r));
    assert HeadOf(th.list[p.from..p.to]) == th.list[p.to - 1].id;
    OwnListWritten(c, st, st', w, e);
    GoodBound(c, st.links, th);
    StepGood(c, st, st', w, e, th.b);
  }

  lemma DropGood(c: Config, st: State, w: Map, e: Event)
    requires c.Valid() && Placed(c, st, w) && AllGood(c, st) && Enabled(c, st, e) && e.Drop?
    ensures AllGood(c, Apply(c, st, e))
    ensures OnlyOwn(st, Apply(c, st, e), w, e)
  {
    hide Good, Writes, OnlyOwn, Addressed, Holds, RunEnd, Bypass;
    var th, st' := st.threads[e.t], Apply(c, st, e);
    assert ThreadGood(c, st.links, th);
    OwnAddressed(c, st, w, e.t);
    GoodCut(c, st.links, th.b, th.newfl, th.list, th.kept, RunEnd(th.list, th.kept));
    OwnListWritten(c, st, st', w, e);
    GoodBound(c, st.links, th);
    StepGood(c, st, st', w, e, th.b);
  }

  lemma GoodCount(c: Config, l: Links, b: nat, w: Word, s: seq<Frag>, f: Frag, earliest: nat, now: nat)
    requires c.buckets > 0 && Good(c, l, b, w, s, None)
    ensures Good(c, l, b, Count(w, f, now).(earliest := earliest), s, None)
  {
    hide Earliest;
    SummaryCount(w, f, now, s);
  }

  /** Steps that write no link and leave the bucket alone. */
  lemma QuietGood(c: Config, st: State, w: Map, e: Event)
    requires c.Valid() && Placed(c, st, w) && AllGood(c, st) && Enabled(c, st, e)
    requires e.Finish? || e.GcLoad? || e.Keep? || e.GcEnd?
    ensures AllGood(c, Apply(c, st, e))
    ensures OnlyOwn(st, Apply(c, st, e), w, e)
  {
    hide Good, OnlyOwn, Holds, RunEnd, Extract, Update, Count, Earliest;
    var th, st' := st.threads[e.t], Apply(c, st, e);
    assert ThreadGood(c, st.links, th);
    NothingWritten(st, st', w, e);
    if e.Finish? {
      GoodUpdate(c, st.links, th);
    } else if e.Keep? {
      GoodCount(c, st.links, th.b, th.newfl, th.list, th.list[RunEnd(th.list, th.kept) - 1],
          Earliest(th.newfl.earliest, e.earliest, th.now), th.now);
    }
    StepGood(c, st, st', w, e, 0);
  }

  /**
    Every step keeps all lists good, and writes no link of a fragment that another thread or an
    untouched bucket holds.
   */
  lemma GoodStep(c: Config, st: State, w: Map, e: Event)
    requires c.Valid() && Placed(c, st, w) && AllGood(c, st) && Enabled(c, st, e)
    ensures AllGood(c, Apply(c, st, e))
    ensures OnlyOwn(st, Apply(c, st, e), w, e)
  {
    hide AllGood, OnlyOwn, Apply, HoldsBuckets, HoldsThreads, HoldsOut, Holds, Extract, WaitForMore;
    match e
    case Submit(_, _) => SubmitGood(c, st, w, e);
    case Load(_) => LoadGood(c, st, w, e);
    case SortList(_) => SortGood(c, st, w, e);
    case GcTake(_) => GcTakeGood(c, st, w, e);
    case ExtractOne(_) => ExtractGood(c, st, w, e);
    case Drop(_) => DropGood(c, st, w, e);
    case Finish(_) => QuietGood(c, st, w, e);
    case GcLoad(_, _, _) => QuietGood(c, st, w, e);
    case Keep(_, _) => QuietGood(c, st, w, e);
    case GcEnd(_) => QuietGood(c, st, w, e);
    case _ =>
      if st.words[st.threads[e.t].b] == st.threads[e.t].oldfl {
        SwapGood(c, st, w, e);
      } else {
        RetryGood(c, st, w, e);
      }
  }
}
