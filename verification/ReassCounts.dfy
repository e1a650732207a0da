/**
  How exact the lengths in a bucket word are.  After a datagram has been cut out the code counts
  the rest on top of the old counts, and garbage collection counts fragments twice; up to then the
  lengths are those of the fragments in the bucket.
 */
module ReassCounts {
  import opened Basics
  import opened IpHeader
  import opened FragOrder
  import opened FragSort
  import opened ReassState
  import opened ReassLinks

  /** The least reassembled length bound of the fragments of a list. */
  function LeastWhole(s: seq<Frag>): (n: nat)
    decreases |s|
  {
    if s == [] then IP_OCTET_MAX else Min(s[0].Whole(), LeastWhole(s[1..]))
  }

  lemma {:induction false} LeastWholeIs(s: seq<Frag>)
    ensures LeastWhole(s) <= IP_OCTET_MAX && forall x :: x in s ==> LeastWhole(s) <= x.Whole()
    ensures LeastWhole(s) < IP_OCTET_MAX ==> exists x :: x in s && x.Whole() == LeastWhole(s)
    decreases |s|
  {
    if s != [] {
      LeastWholeIs(s[1..]);
      assert s[0] in s && forall x :: x in s <==> x == s[0] || x in s[1..];
    }
  }

  lemma LeastWholeSame(s: seq<Frag>, u: seq<Frag>)
    requires forall x :: x in s <==> x in u
    ensures LeastWhole(s) == LeastWhole(u)
  {
    hide LeastWhole;
    LeastWholeIs(s);
    LeastWholeIs(u);
  }

  lemma LeastWholeAppend(s: seq<Frag>, u: seq<Frag>)
    ensures LeastWhole(s + u) == Min(LeastWhole(s), LeastWhole(u))
  {
    hide LeastWhole;
    LeastWholeIs(s);
    LeastWholeIs(u);
    LeastWholeIs(s + u);
  }

  /** The lengths of a word are those of a list. */
  ghost predicate Exact(w: Word, s: seq<Frag>) {
    w.part == Min(IP_OCTET_MAX, SumOct(s)) && w.whole == LeastWhole(s)
  }

  lemma ExactAppend(oldfl: Word, frags: Word, now: nat, s: seq<Frag>, u: seq<Frag>)
    requires Exact(frags, s) && Exact(oldfl, u)
    ensures Exact(NewWord(oldfl, frags, now), s + u)
  {
    hide SumOct, LeastWhole;
    SumOctAppend(s, u);
    LeastWholeAppend(s, u);
  }

  lemma ExactSort(w: Word, s: seq<Frag>, now: nat)
    requires Exact(w, s)
    ensures Exact(w, Sort(s, now))
  {
    hide SumOct, LeastWhole, Sort;
    SumOctSort(s, now);
    SortPermutes(s, now);
    forall x ensures x in s <==> x in Sort(s, now) {
      assert x in s <==> x in multiset(s);
      assert x in Sort(s, now) <==> x in multiset(Sort(s, now));
    }
    LeastWholeSame(s, Sort(s, now));
  }

  lemma ExactOne(f: Frag)
    requires f.Framed()
    ensures Exact(Word(Some(f.id), f.oct, f.Whole(), f.arrival), [f])
  {
    assert SumOct([f]) == f.oct + SumOct([f][1..]);
  }

  /** Threads that do no garbage collection and have cut nothing out. */
  ghost predicate ExactThread(th: Thread) {
    match th
    case Idle => true
    case Redo(_, frags, _, _, _, list) => Exact(frags, list)
    case Loaded(_, frags, _, _, _, _, list, _) => Exact(frags, list)
    case Taken(_, newfl, _, list) => Exact(newfl, list)
    case Extracting(_, newfl, _, changed, list) => !changed && Exact(newfl, list)
    case GcLoaded(_, _, _, _) => false
    case Sweeping(_, _, _, _, _) => false
  }

  ghost predicate ExactState(c: Config, st: State) {
    && Shaped(c, st) && st.waiting <= c.universe && st.out == []
    && (forall b :: 0 <= b < c.buckets ==> Exact(st.words[b], st.chains[b]))
    && (forall t :: 0 <= t < |st.threads| ==> ExactThread(st.threads[t]))
  }

  /** No thread collects garbage. */
  ghost predicate NoCollection(st: State) {
    forall t :: 0 <= t < |st.threads| ==> !st.threads[t].GcLoaded? && !st.threads[t].Sweeping?
  }

  lemma ExactNull()
    ensures Exact(NULL_WORD, [])
  {
  }

  /** What is written back after a vain attempt has the same lengths. */
  lemma ExactUpdate(th: Thread)
    requires th.Extracting? && !th.changed && Exact(th.newfl, th.list)
    ensures Exact(Update(th), th.list)
  {
  }

  /** A step writes at most one bucket, and one thread. */
  lemma ExactSet(c: Config, st: State, st': State, b: nat, t: nat)
    requires ExactState(c, st) && Shaped(c, st') && st'.waiting <= c.universe && st'.out == []
    requires b < c.buckets && t < |st.threads| == |st'.threads|
    requires st'.threads == st.threads[t := st'.threads[t]] && ExactThread(st'.threads[t])
    requires forall k :: 0 <= k < c.buckets && k != b ==> st'.words[k] == st.words[k] && st'.chains[k] == st.chains[k]
    requires Exact(st'.words[b], st'.chains[b])
    ensures ExactState(c, st')
  {
    hide Exact, ExactThread;
  }

  /** Steps that swap a bucket. */
  lemma ExactSwap(c: Config, st: State, e: Event)
    requires c.Valid() && ExactState(c, st) && Enabled(c, st, e) && (e.Publish? || e.Take?)
    ensures ExactState(c, Apply(c, st, e))
  {
    hide Exact, NewWord, WaitForMore;
    var th := st.threads[e.t];
    ExactNull();
    if st.words[th.b] == th.oldfl { ExactAppend(th.oldfl, th.frags, th.now, th.list, st.chains[th.b]); }
    ExactSet(c, st, Apply(c, st, e), th.b, e.t);
  }

  /** Steps that write no bucket. */
  lemma ExactPrivate(c: Config, st: State, e: Event)
    requires c.Valid() && ExactState(c, st) && Enabled(c, st, e) && (e.Submit? || e.Load? || e.SortList? || e.Finish?)
    ensures ExactState(c, Apply(c, st, e))
  {
    hide Exact, Sort, Update, Link;
    var th := st.threads[e.t];
    match e {
      case Submit(_, f) => ExactOne(f);
      case Load(_) =>
      case SortList(_) => ExactSort(th.newfl, th.list, th.now);
      case Finish(_) => ExactUpdate(th);
    }
    ExactSet(c, st, Apply(c, st, e), 0, e.t);
  }

  lemma ExactNext(c: Config, st: State, e: Event)
    requires c.Valid() && ExactState(c, st) && Enabled(c, st, e)
    requires NoCollection(Apply(c, st, e)) && Apply(c, st, e).out == []
    ensures ExactState(c, Apply(c, st, e))
  {
    if e.Publish? || e.Take? {
      ExactSwap(c, st, e);
    } else if e.Submit? || e.Load? || e.SortList? || e.Finish? {
      ExactPrivate(c, st, e);
    } else {
      assert ExactThread(st.threads[e.t]);
      hide Bypass, Exact;
    }
  }

  lemma ExactInit(c: Config, st: State)
    requires Init(c, st)
    ensures ExactState(c, st)
  {
    ExactNull();
    hide Exact;
  }

  lemma SentGrows(c: Config, st: State, e: Event)
    requires c.Valid() && Shaped(c, st) && Enabled(c, st, e)
    ensures |st.out| <= |Apply(c, st, e).out|
  {
    hide Sort, Update, Link, Bypass, NewWord;
  }

  /**
    As long as no datagram has been sent and no thread has collected garbage, the lengths in every
    bucket word are those of the fragments in the bucket: the saturated sum and the least bound.
   */
  lemma {:induction false} BucketExact(c: Config, run: seq<State>, i: nat)
    requires Run(c, run) && i < |run| && run[i].out == [] && forall j :: 0 <= j <= i ==> NoCollection(run[j])
    ensures ExactState(c, run[i])
    decreases i
  {
    hide Apply, Enabled, ExactState, NoCollection, Init;
    if i == 0 {
      ExactInit(c, run[0]);
    } else {
      var st := run[i - 1];
      assert Next(c, st, run[i]);
      var e :| Enabled(c, st, e) && run[i] == Apply(c, st, e);
      SentGrows(c, st, e);
      BucketExact(c, run, i - 1);
      ExactNext(c, st, e);
    }
  }
}
