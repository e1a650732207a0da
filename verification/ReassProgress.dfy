/**
  Termination of the retry loop.  As long as no other thread changes the bucket a thread works
  on, every step of the thread lowers a rank, so that it finishes within a number of steps
  bounded by the fragments it holds and those in the bucket; and it is never blocked.
 */
module ReassProgress {
  import opened FragOrder
  import opened FragSort
  import opened FragExtract
  import opened ReassState
  import opened ReassPlaces
  import opened ReassSafety
  import opened ReassComplete
  import opened ReassTheorems

  /** What a thread may rely on if nobody else has changed its bucket since it last looked. */
  predicate Undisturbed(st: State, th: Thread)
    requires |st.words| == |st.chains| && (th.Idle? || th.b < |st.words|)
  {
    match th
    case Idle => true
    case Redo(b, _, _, _, dont, _) => dont ==> st.chains[b] == []
    case Loaded(b, _, _, _, _, oldfl, _, _) => st.words[b] == oldfl
    case GcLoaded(b, _, oldfl, _) => st.words[b] == oldfl
    case _ => st.chains[th.b] == []
  }

  /** Fragments that the thread holds or can still get hold of. */
  function Reach(st: State, th: Thread): (n: nat)
    requires th.Idle? || th.b < |st.chains|
  {
    if th.Idle? then 0 else |th.List()| + |st.chains[th.b]|
  }

  function Rank(st: State, th: Thread): (r: nat)
    requires th.Idle? || th.b < |st.chains|
    ensures r <= 9 * Reach(st, th) + 8
  {
    var n := Reach(st, th);
    match th
    case Idle => 0
    case Redo(_, _, _, _, dont, _) => 8 * n + if dont then 2 else 6
    case Loaded(_, _, _, _, dont, _, _, _) => 8 * n + if dont then 1 else 5
    case Taken(_, _, _, _) => 8 * n + 4
    case Extracting(_, _, _, changed, _) => 8 * n + if changed then 7 else 3
    case GcLoaded(_, _, _, _) => 9 * n + 8
    case Sweeping(_, _, _, kept, s) => 8 * n + 7 + if kept <= |s| then |s| - kept else 0
  }

  /** The step gets an undisturbed thread nearer to the end and leaves it undisturbed. */
  predicate Advances(st: State, st': State, t: nat)
    requires t < |st.threads| && !st.threads[t].Idle? && st.threads[t].b < |st.chains|
  {
    && t < |st'.threads| && |st'.words| == |st'.chains| == |st.chains|
    && var th' := st'.threads[t];
       && (th'.Idle? || th'.b == st.threads[t].b) && Undisturbed(st', th')
       && Rank(st', th') < Rank(st, st.threads[t])
  }

  lemma AddStep(c: Config, st: State, t: nat)
    requires c.Valid() && Shaped(c, st) && t < |st.threads| && (st.threads[t].Redo? || st.threads[t].Loaded?)
    requires st.threads[t].b < c.buckets && Undisturbed(st, st.threads[t])
    requires st.words[st.threads[t].b].tail == TailOf(st.chains[st.threads[t].b])
    ensures st.threads[t].Redo? ==> Advances(st, DoLoad(st, t), t)
    ensures st.threads[t].Loaded? ==> Advances(st, DoPublish(st, t), t)
    ensures st.threads[t].Loaded? && !st.threads[t].dont ==> Advances(st, DoTake(st, t), t)
  {
    hide NewWord;
  }

  lemma SortAdvances(c: Config, st: State, t: nat)
    requires c.Valid() && Shaped(c, st) && t < |st.threads| && st.threads[t].Taken?
    requires st.threads[t].b < c.buckets && Undisturbed(st, st.threads[t])
    ensures Advances(st, DoSort(st, t), t)
  {
    hide Link, Sort;
    SortLength(st.threads[t], []);
  }

  lemma ExtractAdvances(c: Config, st: State, t: nat)
    requires c.Valid() && Shaped(c, st) && t < |st.threads| && st.threads[t].Extracting?
    requires st.threads[t].b < c.buckets && Undisturbed(st, st.threads[t])
    ensures Extract(st.threads[t].list).Found? ==> Advances(st, DoExtract(st, t), t)
  {
    hide Bypass, Extract;
    if Extract(st.threads[t].list).Found? { ExtractShortens(st.threads[t].list); }
  }

  lemma FinishAdvances(c: Config, st: State, t: nat)
    requires c.Valid() && Shaped(c, st) && t < |st.threads| && st.threads[t].Extracting?
    requires st.threads[t].b < c.buckets && Undisturbed(st, st.threads[t])
    ensures Advances(st, DoFinish(st, t), t)
  {
    hide Update;
  }

  lemma CollectStep(c: Config, st: State, t: nat, earliest: nat)
    requires c.Valid() && Shaped(c, st) && t < |st.threads| && (st.threads[t].GcLoaded? || st.threads[t].Sweeping?)
    requires st.threads[t].b < c.buckets && Undisturbed(st, st.threads[t])
    ensures st.threads[t].GcLoaded? ==> Advances(st, DoGcTake(st, t), t)
    ensures st.threads[t].Sweeping? && st.threads[t].kept < |st.threads[t].list| ==>
              Advances(st, DoKeep(st, t, earliest), t) && Advances(st, DoDrop(st, t), t)
    ensures st.threads[t].Sweeping? && st.threads[t].kept == |st.threads[t].list| ==> Advances(st, DoGcEnd(st, t), t)
  {
    hide Count, Link, Bypass, RunEnd, Sort, Earliest;
    var th := st.threads[t];
    if th.GcLoaded? { SortLength(th, st.chains[th.b]); }
  }

  /** What Safe says about a busy thread and its bucket. */
  lemma BusyBucket(c: Config, st: State, w: Map, t: nat)
    requires Safe(c, st, w) && t < |st.threads| && !st.threads[t].Idle?
    ensures c.Valid() && Shaped(c, st) && st.threads[t].b < c.buckets
    ensures st.words[st.threads[t].b].tail == TailOf(st.chains[st.threads[t].b])
    ensures st.threads[t].Sweeping? ==> st.threads[t].kept <= |st.threads[t].list|
  {
    assert ThreadGood(c, st.links, st.threads[t]);
    assert BucketGood(c, st, st.threads[t].b);
  }

  /** A step of an undisturbed thread gets it nearer to the end. */
  lemma OwnStep(c: Config, st: State, w: Map, e: Event)
    requires Safe(c, st, w) && Enabled(c, st, e) && !st.threads[e.t].Idle?
    requires st.threads[e.t].b < |st.words| == |st.chains| && Undisturbed(st, st.threads[e.t])
    ensures Advances(st, Apply(c, st, e), e.t)
  {
    hide Safe, Advances, Undisturbed, Extract, RunEnd;
    BusyBucket(c, st, w, e.t);
    var th := st.threads[e.t];
    if th.Redo? || th.Loaded? {
      AddStep(c, st, e.t);
    } else if th.Taken? {
      SortAdvances(c, st, e.t);
    } else if th.Extracting? {
      ExtractAdvances(c, st, e.t);
      FinishAdvances(c, st, e.t);
    } else {
      CollectStep(c, st, e.t, if e.Keep? then e.earliest else 0);
    }
  }

  lemma SortLength(th: Thread, chain: seq<Frag>)
    requires th.Taken? || th.GcLoaded?
    ensures th.Taken? ==> |Sort(th.list, th.now)| == |th.list|
    ensures th.GcLoaded? ==> |Sort(chain, th.now)| == |chain|
  {
    if th.Taken? {
      SortPermutes(th.list, th.now);
      PermutedMembers(th.list, Sort(th.list, th.now));
    } else {
      SortPermutes(chain, th.now);
      PermutedMembers(chain, Sort(chain, th.now));
    }
  }

  lemma ExtractShortens(s: seq<Frag>)
    requires Extract(s).Found?
    ensures var p := Locate(s, 0); p.At? && p.from < p.to <= |s| && |Without(s, p.from, p.to)| < |s|
  {
  }

  /** A thread that is not idle can always take a step: nothing ever blocks it. */
  lemma NeverBlocked(c: Config, st: State, w: Map, t: nat) returns (e: Event)
    requires Safe(c, st, w) && t < |st.threads| && !st.threads[t].Idle?
    ensures e.t == t && Enabled(c, st, e)
  {
    hide Safe, WaitForMore, Extract;
    BusyBucket(c, st, w, t);
    var th := st.threads[t];
    e := match th
      case Redo(_, _, _, _, _, _) => Load(t)
      case Loaded(_, _, _, _, _, _, _, _) => if WaitForMore(th) then Publish(t) else Take(t)
      case Taken(_, _, _, _) => SortList(t)
      case Extracting(_, _, _, _, s) => if Extract(s).Found? then ExtractOne(t) else Finish(t)
      case GcLoaded(_, _, _, _) => GcTake(t)
      case Sweeping(_, _, _, kept, s) => if kept < |s| then Drop(t) else GcEnd(t)
      case Idle => Load(t);
  }

  /** Steps of other threads that do not change the bucket do not matter. */
  lemma OtherStep(c: Config, st: State, e: Event, t: nat)
    requires c.Valid() && Shaped(c, st) && Enabled(c, st, e) && e.t != t && t < |st.threads|
    requires !st.threads[t].Idle? && st.threads[t].b < c.buckets && !Swaps(st, e, st.threads[t].b)
    ensures var st', b := Apply(c, st, e), st.threads[t].b;
            && Shaped(c, st') && t < |st'.threads| && st'.threads[t] == st.threads[t]
            && st'.words[b] == st.words[b] && st'.chains[b] == st.chains[b]
  {
    hide Extract, Sort, Update, Link, Bypass, Without, RunEnd, Count, Earliest, WaitForMore, NewWord;
  }

  /** Number of times the state of a thread changes from i to j. */
  function Moves(run: seq<State>, i: nat, j: nat, t: nat): (n: nat)
    requires i <= j < |run| && forall m :: i <= m <= j ==> t < |run[m].threads|
    decreases j - i
  {
    if i == j then 0 else (if run[i + 1].threads[t] == run[i].threads[t] then 0 else 1) + Moves(run, i + 1, j, t)
  }

  /** The thread works on bucket b from i to j, and no other thread changes the bucket. */
  ghost predicate Uncontended(c: Config, run: seq<State>, i: nat, j: nat, t: nat, b: nat)
    requires i <= j < |run|
  {
    && (forall m {:trigger run[m]} :: i <= m < j ==>
        t < |run[m].threads| && !run[m].threads[t].Idle? && run[m].threads[t].b == b)
    && t < |run[j].threads|
    && forall m :: i <= m < j ==> !ChangedByOther(c, run[m], run[m + 1], b, t)
  }

  /** One step of an uncontended stretch: the thread does not move, or it advances. */
  lemma UncontendedStep(c: Config, st: State, st': State, w: Map, t: nat)
    requires Safe(c, st, w) && Next(c, st, st') && t < |st.threads| && !st.threads[t].Idle?
    requires st.threads[t].b < |st.words| == |st.chains| && Undisturbed(st, st.threads[t])
    requires !ChangedByOther(c, st, st', st.threads[t].b, t)
    ensures Advances(st, st', t) ||
            (t < |st'.threads| && st'.threads[t] == st.threads[t] && |st'.words| == |st'.chains| == |st.chains| &&
             Undisturbed(st', st'.threads[t]) && Rank(st', st'.threads[t]) == Rank(st, st.threads[t]))
  {
    hide Safe, Enabled, Apply, Advances;
    var e :| Enabled(c, st, e) && st' == Apply(c, st, e);
    BusyBucket(c, st, w, t);
    if e.t == t {
      OwnStep(c, st, w, e);
    } else {
      OtherStep(c, st, e, t);
    }
  }

  /**
    Termination without interference, and lock-freedom with it: while no other thread changes
    the bucket, a thread that starts undisturbed makes at most Rank steps, a bound linear in the
    number of fragments it can get hold of.  So a thread that goes on forever does so because
    other threads keep succeeding.
   */
  lemma {:induction false} FinishesAlone(c: Config, run: seq<State>, i: nat, j: nat, t: nat, b: nat)
    requires Run(c, run) && i <= j < |run| && Uncontended(c, run, i, j, t, b)
    requires |run[i].words| == |run[i].chains| && (run[i].threads[t].Idle? || run[i].threads[t].b < |run[i].chains|)
    requires Undisturbed(run[i], run[i].threads[t])
    ensures forall m :: i <= m <= j ==> t < |run[m].threads|
    ensures Moves(run, i, j, t) <= Rank(run[i], run[i].threads[t])
    decreases j - i
  {
    hide Safe, Undisturbed, ChangedByOther, Init, Rank, Next;
    if i < j {
      var w := RunSafe(c, run, i);
      assert Next(c, run[i], run[i + 1]);
      assert !ChangedByOther(c, run[i], run[i + 1], b, t);
      UncontendedStep(c, run[i], run[i + 1], w, t);
      FinishesAlone(c, run, i + 1, j, t, b);
    }
  }

  /** A new fragment starts undisturbed. */
  lemma SubmitUndisturbed(c: Config, st: State, t: nat, f: Frag)
    requires c.Valid() && Shaped(c, st) && Enabled(c, st, Submit(t, f))
    ensures var st' := Apply(c, st, Submit(t, f)); Undisturbed(st', st'.threads[t])
  {
  }
}
