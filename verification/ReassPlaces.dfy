/**
  Conservation: in every reachable state of the reassembler each fragment is in exactly one
  place, whatever the interleaving and whatever the flows.
 */
module ReassPlaces {
  import opened FragOrder
  import opened FragSort
  import opened FragExtract
  import opened ReassState

  datatype Place = Waiting | InBucket(b: nat) | WithThread(t: nat) | Output(i: nat) | Freed

  /** A place for every fragment. */
  type Map = map<Frag, Place>

  /** The list holds exactly the fragments that are at a place, each once. */
  ghost predicate Holds(w: Map, s: seq<Frag>, p: Place) {
    && Distinct(s)
    && (forall x :: x in s ==> x in w && w[x] == p)
    && (forall x :: x in w && w[x] == p ==> x in s)
  }

  ghost predicate HoldsBuckets(w: Map, chains: seq<seq<Frag>>) {
    forall b :: 0 <= b < |chains| ==> Holds(w, chains[b], InBucket(b))
  }

  ghost predicate HoldsThreads(w: Map, threads: seq<Thread>) {
    forall t :: 0 <= t < |threads| ==> Holds(w, threads[t].List(), WithThread(t))
  }

  ghost predicate HoldsOut(w: Map, out: seq<seq<Frag>>) {
    forall i :: 0 <= i < |out| ==> Holds(w, out[i], Output(i))
  }

  /** Every fragment of the universe has one place, and the state agrees. */
  ghost predicate Placed(c: Config, st: State, w: Map) {
    && Shaped(c, st)
    && w.Keys == c.universe
    && (forall x :: x in w ==> ValidPlace(st, w[x]))
    && (forall x :: x in st.waiting ==> x in w && w[x] == Waiting)
    && (forall x :: x in w && w[x] == Waiting ==> x in st.waiting)
    && HoldsBuckets(w, st.chains)
    && HoldsThreads(w, st.threads)
    && HoldsOut(w, st.out)
    && Holds(w, st.freed, Freed)
  }

  predicate ValidPlace(st: State, p: Place) {
    match p
    case InBucket(b) => b < |st.chains|
    case WithThread(t) => t < |st.threads|
    case Output(i) => i < |st.out|
    case _ => true
  }

  /** All fragments of a list move to a place. */
  ghost function Move(w: Map, s: seq<Frag>, p: Place): (r: Map)
    ensures r.Keys == w.Keys
    ensures forall x {:trigger r[x]} :: x in w ==> r[x] == if x in s then p else w[x]
  {
    map x | x in w :: if x in s then p else w[x]
  }

  /** A list from another place is not affected by a move, unless it is the destination. */
  lemma MoveOther(w: Map, s: seq<Frag>, from: Place, to: Place, u: seq<Frag>, q: Place)
    requires Holds(w, u, q) && q != to && q != from
    requires forall x :: x in s ==> x in w && w[x] == from
    ensures Holds(Move(w, s, to), u, q)
  {
  }

  /** Lists from different places share no fragment, so joining them keeps them distinct. */
  lemma JoinDistinct(w: Map, s: seq<Frag>, p: Place, u: seq<Frag>, q: Place)
    requires Holds(w, s, p) && Holds(w, u, q) && p != q
    ensures Distinct(s + u) && forall x :: x in s + u <==> x in s || x in u
  {
    var r := s + u;
    forall i, j | 0 <= i < j < |r| ensures r[i] != r[j] {
      if i < |s| <= j {
        assert r[i] in s && r[j] in u;
      }
    }
  }

  /** A whole list moves in front of another one. */
  lemma MoveAll(w: Map, s: seq<Frag>, from: Place, u: seq<Frag>, to: Place)
    requires Holds(w, s, from) && Holds(w, u, to) && from != to
    ensures Holds(Move(w, s, to), s + u, to)
    ensures Holds(Move(w, s, to), [], from)
  {
    JoinDistinct(w, s, from, u, to);
  }

  /** As MoveAll, with the moving list behind. */
  lemma MoveAllBehind(w: Map, s: seq<Frag>, to: Place, u: seq<Frag>, from: Place)
    requires Holds(w, s, to) && Holds(w, u, from) && from != to
    ensures Holds(Move(w, u, to), s + u, to)
    ensures Holds(Move(w, u, to), [], from)
  {
    JoinDistinct(w, s, to, u, from);
  }

  /** A slice of a list moves to an empty place, or behind the list there. */
  lemma MoveSlice(w: Map, s: seq<Frag>, k: nat, m: nat, from: Place, u: seq<Frag>, to: Place)
    requires Holds(w, s, from) && Holds(w, u, to) && from != to && k <= m <= |s|
    ensures Holds(Move(w, s[k..m], to), u + s[k..m], to)
    ensures Holds(Move(w, s[k..m], to), Without(s, k, m), from)
    ensures forall x :: x in s[k..m] ==> x in w && w[x] == from
  {
    var d, r := s[k..m], Without(s, k, m);
    var w' := Move(w, d, to);
    forall x | x in d ensures x in s && x in w && w[x] == from {}
    SliceDistinct(s, k, m);
    assert Distinct(u + d) by {
      forall i, j | 0 <= i < j < |u + d| ensures (u + d)[i] != (u + d)[j] {
        if i < |u| <= j { assert (u + d)[i] in u && (u + d)[j] in d; }
      }
    }
    forall x | x in r ensures x in w' && w'[x] == from {
      InWithout(s, k, m, x);
    }
    forall x | x in w' && w'[x] == from ensures x in r {
      InWithout(s, k, m, x);
    }
  }

  lemma SliceDistinct(s: seq<Frag>, k: nat, m: nat)
    requires Distinct(s) && k <= m <= |s|
    ensures Distinct(s[k..m]) && Distinct(Without(s, k, m))
  {
    var r := Without(s, k, m);
    forall i, j | 0 <= i < j < |r| ensures r[i] != r[j] {
      var i', j' := if i < k then i else i + (m - k), if j < k then j else j + (m - k);
      assert s[i'] != s[j'];
    }
  }

  lemma NotInBoth(s: seq<Frag>, k: nat, m: nat, x: Frag)
    requires Distinct(s) && k <= m <= |s| && (x in s[..k] || x in s[m..])
    ensures x !in s[k..m]
  {
  }

  lemma InWithout(s: seq<Frag>, k: nat, m: nat, x: Frag)
    requires Distinct(s) && k <= m <= |s|
    ensures x in Without(s, k, m) <==> x in s && x !in s[k..m]
  {
    var a, b, c := s[..k], s[k..m], s[m..];
    assert s == a + b + c && Without(s, k, m) == a + c;
    if x in a || x in c { NotInBoth(s, k, m, x); }
  }

  lemma HoldsSorted(w: Map, s: seq<Frag>, p: Place, now: nat)
    requires Holds(w, s, p)
    ensures Holds(w, Sort(s, now), p)
  {
    SortPermutes(s, now);
    PermutedMembers(s, Sort(s, now));
    PermutedDistinct(s, Sort(s, now));
  }

  /** The two states have the same fragments in the same places. */
  ghost predicate SameLists(st: State, st': State) {
    && st'.chains == st.chains && st'.out == st.out && st'.freed == st.freed && st'.waiting == st.waiting
    && |st'.threads| == |st.threads| && |st'.words| == |st.words| && |st'.versions| == |st.versions|
    && forall t :: 0 <= t < |st.threads| ==> st'.threads[t].List() == st.threads[t].List()
  }

  lemma SameListsPlaced(c: Config, st: State, st': State, w: Map)
    requires Placed(c, st, w) && SameLists(st, st')
    ensures Placed(c, st', w)
  {
    hide Holds;
    forall t | 0 <= t < |st'.threads| ensures Holds(w, st'.threads[t].List(), WithThread(t)) {
      assert Holds(w, st.threads[t].List(), WithThread(t));
    }
  }

  lemma ThreadSame(st: State, t: nat, th: Thread)
    requires t < |st.threads| && th.List() == st.threads[t].List()
    ensures forall i :: 0 <= i < |st.threads| ==> st.threads[t := th][i].List() == st.threads[i].List()
  {
  }

  /** Steps that move no fragment. */
  lemma StayStep(c: Config, st: State, e: Event)
    requires c.Valid() && Shaped(c, st) && Enabled(c, st, e)
    requires e.Load? || e.Finish? || e.GcLoad? || e.Keep? || e.GcEnd?
    ensures SameLists(st, Apply(c, st, e))
  {
    hide Extract, Earliest, Update, RunEnd;
    ThreadSame(st, e.t, Apply(c, st, e).threads[e.t]);
  }

  lemma RetryStep(st: State, t: nat)
    requires t < |st.threads| && st.threads[t].Loaded?
    ensures SameLists(st, DoRetry(st, t))
  {
    ThreadSame(st, t, DoRetry(st, t).threads[t]);
  }

  lemma HoldsMembers(w: Map, s: seq<Frag>, p: Place)
    requires Holds(w, s, p)
    ensures forall x :: x in s ==> x in w && w[x] == p
  {
  }

  /** One thread's list changes by a move. */
  lemma ThreadsAfter(w: Map, s: seq<Frag>, from: Place, to: Place, st: State, t: nat, th: Thread)
    requires HoldsThreads(w, st.threads) && t < |st.threads|
    requires forall x :: x in s ==> x in w && w[x] == from
    requires from.WithThread? ==> from.t == t
    requires to.WithThread? ==> to.t == t
    requires Holds(Move(w, s, to), th.List(), WithThread(t))
    ensures HoldsThreads(Move(w, s, to), st.threads[t := th])
  {
    hide Holds;
    forall t' | 0 <= t' < |st.threads| ensures Holds(Move(w, s, to), st.threads[t := th][t'].List(), WithThread(t')) {
      if t' != t { MoveOther(w, s, from, to, st.threads[t'].List(), WithThread(t')); }
    }
  }

  /** One bucket's list changes by a move. */
  lemma BucketsAfter(w: Map, s: seq<Frag>, from: Place, to: Place, st: State, b: nat, chain: seq<Frag>)
    requires HoldsBuckets(w, st.chains) && b < |st.chains|
    requires forall x :: x in s ==> x in w && w[x] == from
    requires from.InBucket? ==> from.b == b
    requires to.InBucket? ==> to.b == b
    requires Holds(Move(w, s, to), chain, InBucket(b))
    ensures HoldsBuckets(Move(w, s, to), st.chains[b := chain])
  {
    hide Holds;
    forall b' | 0 <= b' < |st.chains| ensures Holds(Move(w, s, to), st.chains[b := chain][b'], InBucket(b')) {
      if b' != b { MoveOther(w, s, from, to, st.chains[b'], InBucket(b')); }
    }
  }

  /** The outputs and the freed fragments are not affected by a move between other places. */
  lemma OutputsStay(w: Map, s: seq<Frag>, from: Place, to: Place, st: State)
    requires HoldsOut(w, st.out) && !from.Output?
    requires forall x :: x in s ==> x in w && w[x] == from
    ensures !to.Output? ==> HoldsOut(Move(w, s, to), st.out)
    ensures to == Output(|st.out|) && Holds(Move(w, s, to), s, to) ==> HoldsOut(Move(w, s, to), st.out + [s])
  {
    hide Holds;
    forall i | 0 <= i < |st.out| && Output(i) != to ensures Holds(Move(w, s, to), st.out[i], Output(i)) {
      MoveOther(w, s, from, to, st.out[i], Output(i));
    }
  }

  lemma BucketsStay(w: Map, s: seq<Frag>, from: Place, to: Place, st: State)
    requires HoldsBuckets(w, st.chains) && !from.InBucket? && !to.InBucket?
    requires forall x :: x in s ==> x in w && w[x] == from
    ensures HoldsBuckets(Move(w, s, to), st.chains)
  {
    hide Holds;
    forall b | 0 <= b < |st.chains| ensures Holds(Move(w, s, to), st.chains[b], InBucket(b)) {
      MoveOther(w, s, from, to, st.chains[b], InBucket(b));
    }
  }

  /** The bucket and the thread exchange fragments; everything else stays. */
  lemma ExchangePlaced(c: Config, st: State, st': State, w: Map, s: seq<Frag>, from: Place, to: Place, b: nat, t: nat)
    requires Placed(c, st, w) && b < |st.chains| && t < |st.threads|
    requires (from == InBucket(b) && to == WithThread(t)) || (from == WithThread(t) && to == InBucket(b))
    requires forall x :: x in s ==> x in w && w[x] == from
    requires Shaped(c, st') && st'.chains == st.chains[b := st'.chains[b]]
    requires |st'.threads| == |st.threads| && st'.threads == st.threads[t := st'.threads[t]]
    requires st'.out == st.out && st'.freed == st.freed && st'.waiting == st.waiting
    requires var w' := Move(w, s, to);
             Holds(w', st'.chains[b], InBucket(b)) && Holds(w', st'.threads[t].List(), WithThread(t))
    ensures Placed(c, st', Move(w, s, to))
  {
    hide Holds, HoldsBuckets, HoldsThreads, HoldsOut;
    OutputsStay(w, s, from, to, st);
    BucketsAfter(w, s, from, to, st, b, st'.chains[b]);
    ThreadsAfter(w, s, from, to, st, t, st'.threads[t]);
    MoveOther(w, s, from, to, st.freed, Freed);
  }

  lemma PublishPlaced(c: Config, st: State, t: nat, w: Map) returns (w': Map)
    requires c.Valid() && Placed(c, st, w) && t < |st.threads| && st.threads[t].Loaded? && st.threads[t].b < c.buckets
    ensures Placed(c, DoPublish(st, t), w')
  {
    hide Holds;
    var th := st.threads[t];
    if st.words[th.b] == th.oldfl {
      var s, chain := th.list, st.chains[th.b];
      assert Holds(w, th.List(), WithThread(t)) && Holds(w, chain, InBucket(th.b));
      HoldsMembers(w, s, WithThread(t));
      MoveAll(w, s, WithThread(t), chain, InBucket(th.b));
      w' := Move(w, s, InBucket(th.b));
      ExchangePlaced(c, st, DoPublish(st, t), w, s, WithThread(t), InBucket(th.b), th.b, t);
    } else {
      RetryStep(st, t);
      SameListsPlaced(c, st, DoRetry(st, t), w);
      w' := w;
    }
  }

  lemma TakePlaced(c: Config, st: State, t: nat, w: Map) returns (w': Map)
    requires c.Valid() && Placed(c, st, w) && t < |st.threads| && st.threads[t].Loaded? && st.threads[t].b < c.buckets
    ensures Placed(c, DoTake(st, t), w')
  {
    hide Holds;
    var th := st.threads[t];
    if st.words[th.b] == th.oldfl {
      var chain := st.chains[th.b];
      assert Holds(w, th.List(), WithThread(t)) && Holds(w, chain, InBucket(th.b));
      HoldsMembers(w, chain, InBucket(th.b));
      MoveAllBehind(w, th.list, WithThread(t), chain, InBucket(th.b));
      w' := Move(w, chain, WithThread(t));
      ExchangePlaced(c, st, DoTake(st, t), w, chain, InBucket(th.b), WithThread(t), th.b, t);
    } else {
      RetryStep(st, t);
      SameListsPlaced(c, st, DoRetry(st, t), w);
      w' := w;
    }
  }

  lemma GcTakePlaced(c: Config, st: State, t: nat, w: Map) returns (w': Map)
    requires c.Valid() && Placed(c, st, w) && t < |st.threads| && st.threads[t].GcLoaded? && st.threads[t].b < c.buckets
    ensures Placed(c, DoGcTake(st, t), w')
  {
    hide Holds, Sort, Link;
    var th := st.threads[t];
    if st.words[th.b] == th.oldfl {
      var chain := st.chains[th.b];
      assert Holds(w, th.List(), WithThread(t)) && Holds(w, chain, InBucket(th.b));
      HoldsMembers(w, chain, InBucket(th.b));
      MoveAll(w, chain, InBucket(th.b), [], WithThread(t));
      assert chain + [] == chain;
      w' := Move(w, chain, WithThread(t));
      HoldsSorted(w', chain, WithThread(t), th.now);
      ExchangePlaced(c, st, DoGcTake(st, t), w, chain, InBucket(th.b), WithThread(t), th.b, t);
    } else {
      ThreadSame(st, t, Idle);
      SameListsPlaced(c, st, DoGcTake(st, t), w);
      w' := w;
    }
  }

  /** Fragments of a thread leave the reassembler. */
  lemma LeavePlaced(c: Config, st: State, st': State, w: Map, s: seq<Frag>, to: Place, t: nat)
    requires Placed(c, st, w) && t < |st.threads| && (to == Freed || to == Output(|st.out|))
    requires forall x :: x in s ==> x in w && w[x] == WithThread(t)
    requires Shaped(c, st') && st'.chains == st.chains && st'.waiting == st.waiting
    requires |st'.threads| == |st.threads| && st'.threads == st.threads[t := st'.threads[t]]
    requires Holds(Move(w, s, to), st'.threads[t].List(), WithThread(t))
    requires if to == Freed
             then st'.out == st.out && Holds(Move(w, s, to), st'.freed, to)
             else st'.freed == st.freed && st'.out == st.out + [s] && Holds(Move(w, s, to), s, to)
    ensures Placed(c, st', Move(w, s, to))
  {
    hide Holds, HoldsBuckets, HoldsThreads, HoldsOut;
    OutputsStay(w, s, WithThread(t), to, st);
    BucketsStay(w, s, WithThread(t), to, st);
    ThreadsAfter(w, s, WithThread(t), to, st, t, st'.threads[t]);
    if to != Freed { MoveOther(w, s, WithThread(t), to, st.freed, Freed); }
  }

  lemma SubmitPlaced(c: Config, st: State, t: nat, f: Frag, w: Map) returns (w': Map)
    requires c.Valid() && Placed(c, st, w) && t < |st.threads| && st.threads[t].Idle? && f in st.waiting
    ensures Placed(c, DoSubmit(c, st, t, f), w')
  {
    var st' := DoSubmit(c, st, t, f);
    w' := Move(w, [f], WithThread(t));
    assert Holds(w', [f], WithThread(t)) by {
      assert Holds(w, st.threads[t].List(), WithThread(t));
    }
    hide Holds, HoldsBuckets, HoldsThreads, HoldsOut;
    OutputsStay(w, [f], Waiting, WithThread(t), st);
    BucketsStay(w, [f], Waiting, WithThread(t), st);
    ThreadsAfter(w, [f], Waiting, WithThread(t), st, t, st'.threads[t]);
    MoveOther(w, [f], Waiting, WithThread(t), st.freed, Freed);
  }

  lemma EmptyPlace(c: Config, st: State, w: Map)
    requires Placed(c, st, w)
    ensures Holds(w, [], Output(|st.out|))
  {
  }

  lemma ExtractPlaced(c: Config, st: State, t: nat, w: Map) returns (w': Map)
    requires c.Valid() && Placed(c, st, w) && t < |st.threads|
    requires st.threads[t].Extracting? && Extract(st.threads[t].list).Found?
    ensures Placed(c, DoExtract(st, t), w')
  {
    hide Holds, Locate, Without, Bypass;
    var th := st.threads[t];
    var p := Locate(th.list, 0);
    var d := th.list[p.from..p.to];
    assert Holds(w, th.List(), WithThread(t));
    EmptyPlace(c, st, w);
    MoveSlice(w, th.list, p.from, p.to, WithThread(t), [], Output(|st.out|));
    assert [] + d == d;
    w' := Move(w, d, Output(|st.out|));
    LeavePlaced(c, st, DoExtract(st, t), w, d, Output(|st.out|), t);
  }

  lemma DropPlaced(c: Config, st: State, t: nat, w: Map) returns (w': Map)
    requires c.Valid() && Placed(c, st, w) && t < |st.threads|
    requires st.threads[t].Sweeping? && st.threads[t].kept < |st.threads[t].list|
    ensures Placed(c, DoDrop(st, t), w')
  {
    hide Holds, RunEnd, Without, Bypass;
    var th := st.threads[t];
    var k, m := th.kept, RunEnd(th.list, th.kept);
    assert Holds(w, th.List(), WithThread(t));
    MoveSlice(w, th.list, k, m, WithThread(t), st.freed, Freed);
    w' := Move(w, th.list[k..m], Freed);
    LeavePlaced(c, st, DoDrop(st, t), w, th.list[k..m], Freed, t);
  }

  lemma SortPlaced(c: Config, st: State, t: nat, w: Map)
    requires c.Valid() && Placed(c, st, w) && t < |st.threads| && st.threads[t].Taken?
    ensures Placed(c, DoSort(st, t), w)
  {
    hide Holds, Sort, Link;
    var th, st' := st.threads[t], DoSort(st, t);
    assert Holds(w, th.List(), WithThread(t));
    HoldsSorted(w, th.list, WithThread(t), th.now);
    forall t' | 0 <= t' < |st'.threads| ensures Holds(w, st'.threads[t'].List(), WithThread(t')) {
      if t' != t { assert st'.threads[t'] == st.threads[t']; }
    }
  }

  /** Every step keeps every fragment in exactly one place. */
  lemma PlacedStep(c: Config, st: State, e: Event, w: Map) returns (w': Map)
    requires c.Valid() && Placed(c, st, w) && Enabled(c, st, e)
    ensures Placed(c, Apply(c, st, e), w')
  {
    hide Holds, HoldsBuckets, HoldsThreads, HoldsOut, Extract, WaitForMore, SameLists;
    match e
    case Submit(t, f) => w' := SubmitPlaced(c, st, t, f, w);
    case Publish(t) => w' := PublishPlaced(c, st, t, w);
    case Take(t) => w' := TakePlaced(c, st, t, w);
    case SortList(t) => SortPlaced(c, st, t, w); w' := w;
    case ExtractOne(t) => w' := ExtractPlaced(c, st, t, w);
    case GcTake(t) => w' := GcTakePlaced(c, st, t, w);
    case Drop(t) => w' := DropPlaced(c, st, t, w);
    case _ =>
      StayStep(c, st, e);
      SameListsPlaced(c, st, Apply(c, st, e), w);
      w' := w;
  }
}
