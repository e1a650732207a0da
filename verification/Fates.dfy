/**
  What becomes of a list of things that are handed out to queues: each is accepted by a queue or
  refused.  Used where batches are split by destination.
 */
module Fates {
  import opened Basics

  /** For each thing the queue that accepted it, if any. */
  type Fate = seq<Option<nat>>

  /** Contents of all queues. */
  type Contents<T> = map<nat, seq<T>>

  function In<T>(m: Contents<T>, q: nat): (s: seq<T>) { if q in m then m[q] else [] }

  /** Things that were accepted by queue q, and things that were refused, in order. */
  function Picked<T>(s: seq<T>, fate: Fate, q: nat): (r: seq<T>)
    requires |s| == |fate|
    decreases |s|
  {
    if s == [] then [] else
      var n := |s| - 1;
      Picked(s[..n], fate[..n], q) + if fate[n] == Some(q) then [s[n]] else []
  }

  /** A thing that queue q accepted is one whose fate is q. */
  lemma {:induction false} PickedFrom<T>(s: seq<T>, fate: Fate, q: nat, j: nat) returns (i: nat)
    requires |s| == |fate| && j < |Picked(s, fate, q)|
    ensures i < |s| && fate[i] == Some(q) && s[i] == Picked(s, fate, q)[j]
    decreases |s|
  {
    var n := |s| - 1;
    if j < |Picked(s[..n], fate[..n], q)| { i := PickedFrom(s[..n], fate[..n], q, j); } else { i := n; }
  }

  function Refused<T>(s: seq<T>, fate: Fate): (r: seq<T>)
    requires |s| == |fate|
    decreases |s|
  {
    if s == [] then [] else
      var n := |s| - 1;
      Refused(s[..n], fate[..n]) + if fate[n].None? then [s[n]] else []
  }

  function Accepted<T>(s: seq<T>, fate: Fate): (r: seq<T>)
    requires |s| == |fate|
    decreases |s|
  {
    if s == [] then [] else
      var n := |s| - 1;
      Accepted(s[..n], fate[..n]) + if fate[n].Some? then [s[n]] else []
  }

  lemma PickedSnoc<T>(s: seq<T>, f: Fate, p: T, o: Option<nat>, q: nat)
    requires |s| == |f|
    ensures Picked(s + [p], f + [o], q) == Picked(s, f, q) + if o == Some(q) then [p] else []
    ensures Refused(s + [p], f + [o]) == Refused(s, f) + if o.None? then [p] else []
    ensures Accepted(s + [p], f + [o]) == Accepted(s, f) + if o.Some? then [p] else []
  {
    assert (s + [p])[..|s|] == s && (f + [o])[..|s|] == f;
  }

  lemma {:induction false} PickedAppend<T>(a: seq<T>, f: Fate, b: seq<T>, g: Fate, q: nat)
    requires |a| == |f| && |b| == |g|
    ensures Picked(a + b, f + g, q) == Picked(a, f, q) + Picked(b, g, q)
    ensures Refused(a + b, f + g) == Refused(a, f) + Refused(b, g)
    decreases |b|
  {
    if b == [] {
      assert a + b == a && f + g == f;
    } else {
      hide Picked, Refused;
      var n := |b| - 1;
      var b', g', p, o := b[..n], g[..n], b[n], g[n];
      assert b == b' + [p] && g == g' + [o];
      assert a + b == (a + b') + [p] && f + g == (f + g') + [o];
      PickedAppend(a, f, b', g', q);
      PickedSnoc(a + b', f + g', p, o, q);
      PickedSnoc(b', g', p, o, q);
    }
  }

  /** All n things get the same fate. */
  function All(n: nat, o: Option<nat>): (f: Fate)
    ensures |f| == n
  {
    seq(n, i => o)
  }

  lemma AllNext(n: nat, o: Option<nat>)
    ensures All(n + 1, o) == All(n, o) + [o]
  {
  }

  lemma {:induction false} AllFate<T>(run: seq<T>, o: Option<nat>, q: nat)
    ensures Picked(run, All(|run|, o), q) == if o == Some(q) then run else []
    ensures Refused(run, All(|run|, o)) == if o.None? then run else []
    decreases |run|
  {
    var n := |run| - 1;
    if n >= 0 {
      hide Picked, Refused;
      AllFate(run[..n], o, q);
      AllNext(n, o);
      PickedSnoc(run[..n], All(n, o), run[n], o, q);
      assert run[..n] + [run[n]] == run;
    }
  }

  /** A queue accepts the first r of n things and refuses the others. */
  function Prefix(n: nat, r: nat, d: nat): (f: Fate)
    requires r <= n
    ensures |f| == n
  {
    All(r, Some(d)) + All(n - r, None)
  }

  lemma PrefixFate<T>(run: seq<T>, r: nat, d: nat, q: nat)
    requires r <= |run|
    ensures Picked(run, Prefix(|run|, r, d), q) == if q == d then run[..r] else []
    ensures Refused(run, Prefix(|run|, r, d)) == run[r..]
  {
    hide Picked, Refused, All;
    var a, b := run[..r], run[r..];
    AllFate(a, Some(d), q);
    AllFate(b, None, q);
    PickedAppend(a, All(r, Some(d)), b, All(|run| - r, None), q);
    assert run == a + b;
  }

  /** One more thing goes to one of two lists. */
  lemma DealOne<T>(s: seq<T>, x: T, a: seq<T>, b: seq<T>, a': seq<T>, b': seq<T>)
    requires multiset(a) + multiset(b) == multiset(s) && |a| + |b| == |s|
    requires (a' == a + [x] && b' == b) || (a' == a && b' == b + [x])
    ensures multiset(a') + multiset(b') == multiset(s + [x]) && |a'| + |b'| == |s + [x]|
  {
    if a' == a + [x] {
      assert multiset(a') == multiset(a) + multiset{x};
    } else {
      assert multiset(b') == multiset(b) + multiset{x};
    }
    assert multiset(s + [x]) == multiset(s) + multiset{x};
  }

  /** Nothing is lost or duplicated. */
  lemma {:induction false} FateConserves<T>(s: seq<T>, fate: Fate)
    requires |s| == |fate|
    ensures multiset(Accepted(s, fate)) + multiset(Refused(s, fate)) == multiset(s)
    ensures |Accepted(s, fate)| + |Refused(s, fate)| == |s|
    decreases |s|
  {
    if s != [] {
      hide Accepted, Refused;
      var n := |s| - 1;
      var s', f' := s[..n], fate[..n];
      assert s == s' + [s[n]] && fate == f' + [fate[n]];
      FateConserves(s', f');
      PickedSnoc(s', f', s[n], fate[n], 0);
      DealOne(s', s[n], Accepted(s', f'), Refused(s', f'), Accepted(s, fate), Refused(s, fate));
    } else {
      assert Accepted(s, fate) == [] && Refused(s, fate) == [];
    }
  }

  /** Every accepted thing went to its own destination. */
  ghost predicate Own<T(!new)>(s: seq<T>, fate: Fate, dst: T -> nat) {
    |s| == |fate| && forall i :: 0 <= i < |s| && fate[i].Some? ==> fate[i].value == dst(s[i])
  }

  /** The things of a list with a destination. */
  function Only<T>(s: seq<T>, dst: T -> nat, q: nat): (r: seq<T>)
    decreases |s|
  {
    if s == [] then [] else Only(s[..|s| - 1], dst, q) + if dst(s[|s| - 1]) == q then [s[|s| - 1]] else []
  }

  /** What a queue gets are the accepted things with that destination, in order. */
  lemma {:induction false} PickedIsOnly<T(!new)>(s: seq<T>, fate: Fate, dst: T -> nat, q: nat)
    requires Own(s, fate, dst)
    ensures Picked(s, fate, q) == Only(Accepted(s, fate), dst, q)
    decreases |s|
  {
    if s != [] {
      var n := |s| - 1;
      PickedIsOnly(s[..n], fate[..n], dst, q);
      if fate[n].Some? {
        var a := Accepted(s[..n], fate[..n]);
        assert (a + [s[n]])[..|a|] == a;
      } else {
        assert Accepted(s, fate) == Accepted(s[..n], fate[..n]);
      }
    }
  }

  /** The queues and the list of refused things after a list has been handed out. */
  ghost predicate Settled<T>(before: Contents<T>, after: Contents<T>, freed: seq<T>, freed': seq<T>, s: seq<T>,
      fate: Fate) {
    && |s| == |fate| && freed' == freed + Refused(s, fate)
    && forall q :: In(after, q) == In(before, q) + Picked(s, fate, q)
  }

  lemma SettledLengths<T>(before: Contents<T>, after: Contents<T>, freed: seq<T>, freed': seq<T>, s: seq<T>, fate: Fate)
    requires Settled(before, after, freed, freed', s, fate)
    ensures |s| == |fate|
  {
  }

  lemma SettledNone<T>(m: Contents<T>, freed: seq<T>)
    ensures Settled(m, m, freed, freed, [], [])
  {
  }

  /** One more run is offered to one queue. */
  lemma SettledRun<T>(before: Contents<T>, mid: Contents<T>, after: Contents<T>, freed: seq<T>, freed': seq<T>,
                      s: seq<T>, fate: Fate, run: seq<T>, d: nat, r: nat)
    requires Settled(before, mid, freed, freed', s, fate) && r <= |run|
    requires forall q :: In(after, q) == if q == d then In(mid, q) + run[..r] else In(mid, q)
    ensures Settled(before, after, freed, freed' + run[r..], s + run, fate + Prefix(|run|, r, d))
  {
    hide Picked, Refused, Prefix, In;
    var f := Prefix(|run|, r, d);
    PickedAppend(s, fate, run, f, d);
    PrefixFate(run, r, d, d);
    assert (freed + Refused(s, fate)) + run[r..] == freed + (Refused(s, fate) + run[r..]);
    forall q ensures In(after, q) == In(before, q) + Picked(s + run, fate + f, q) {
      PickedAppend(s, fate, run, f, q);
      PrefixFate(run, r, d, q);
      var more := Picked(run, f, q);
      assert In(after, q) == In(mid, q) + more;
      assert (In(before, q) + Picked(s, fate, q)) + more == In(before, q) + (Picked(s, fate, q) + more);
    }
  }

  lemma OwnRun<T(!new)>(s: seq<T>, fate: Fate, dst: T -> nat, run: seq<T>, d: nat, r: nat)
    requires Own(s, fate, dst) && r <= |run| && forall i :: 0 <= i < |run| ==> dst(run[i]) == d
    ensures Own(s + run, fate + Prefix(|run|, r, d), dst)
  {
  }

  /** How many of n things a queue takes: the first few of them, or none if it fails. */
  function Taken(willing: int, n: nat): (r: nat)
    ensures r <= n
  {
    if willing < 0 then 0 else if willing > n then n else willing
  }

  /** Where thing j is in its run of equal destinations, and which run that is. */
  function RunPos(d: seq<nat>, j: nat): (p: nat)
    requires j < |d|
  {
    if j == 0 || d[j - 1] != d[j] then 0 else RunPos(d, j - 1) + 1
  }

  function RunNo(d: seq<nat>, j: nat): (k: nat)
    requires j < |d|
  {
    if j == 0 then 0 else RunNo(d, j - 1) + if d[j - 1] != d[j] then 1 else 0
  }

  /**
    What becomes of things with the given destinations when each run is offered in one call: it
    goes to its queue as far as that is willing, and what is refused is what is behind.
   */
  ghost predicate ByRuns(d: seq<nat>, fate: Fate, willing: nat -> int) {
    |fate| <= |d| && forall j :: 0 <= j < |fate| ==>
      fate[j] == if RunPos(d, j) < willing(RunNo(d, j)) then Some(d[j]) else None
  }

  lemma {:induction false} RunInside(d: seq<nat>, b: nat, j: nat)
    requires b <= j < |d| && (b == 0 || d[b - 1] != d[b]) && forall k :: b <= k <= j ==> d[k] == d[b]
    ensures RunPos(d, j) == j - b && RunNo(d, j) == RunNo(d, b)
    decreases j
  {
    if b < j { RunInside(d, b, j - 1); }
  }

  lemma NoneByRuns(d: seq<nat>, willing: nat -> int)
    ensures ByRuns(d, [], willing) && (d != [] ==> RunNo(d, 0) == 0)
  {
  }

  lemma ByRunsNext(d: seq<nat>, fate: Fate, willing: nat -> int, i: nat)
    requires ByRuns(d, fate, willing) && |fate| < i <= |d|
    requires var b := |fate|; (b == 0 || d[b - 1] != d[b]) && forall k :: b <= k < i ==> d[k] == d[b]
    ensures var b := |fate|;
            && ByRuns(d, fate + Prefix(i - b, Taken(willing(RunNo(d, b)), i - b), d[b]), willing)
            && (i < |d| && d[i] != d[b] ==> RunNo(d, i) == RunNo(d, b) + 1)
  {
    hide RunPos, RunNo, Prefix, Taken;
    var b := |fate|;
    var w := willing(RunNo(d, b));
    var fate' := fate + Prefix(i - b, Taken(w, i - b), d[b]);
    forall j | b <= j < i
        ensures fate'[j] == if RunPos(d, j) < willing(RunNo(d, j)) then Some(d[j]) else None {
      RunInside(d, b, j);
      PrefixAt(i - b, w, d[b], j - b);
    }
    RunInside(d, b, i - 1);
    RunNext(d, i);
  }

  lemma PrefixAt(n: nat, w: int, q: nat, k: nat)
    requires k < n
    ensures Prefix(n, Taken(w, n), q)[k] == if k < w then Some(q) else None
  {
  }

  lemma RunNext(d: seq<nat>, i: nat)
    requires 0 < i <= |d|
    ensures i < |d| && d[i - 1] != d[i] ==> RunNo(d, i) == RunNo(d, i - 1) + 1
  {
  }

  /** Queues that may accept only part of what they are offered. */
  class Queues<T> {
    var contents: Contents<T>
    var freed: seq<T>

    constructor ()
      ensures contents == map[] && freed == []
    {
      contents, freed := map[], [];
    }

    /** Append things to a queue, which may accept only the first few of them or fail. */
    method Enqueue(q: nat, run: seq<T>, willing: int) returns (ret: int)
      modifies `contents
      ensures ret == if willing > |run| then |run| else willing
      ensures forall x :: In(contents, x) == if x == q && ret > 0 then In(old(contents), x) + run[..ret]
          else In(old(contents), x)
    {
      ret := if willing > |run| then |run| else willing;
      if ret > 0 { contents := contents[q := In(contents, q) + run[..ret]]; }
    }

    method Free(run: seq<T>)
      modifies `freed
      ensures freed == old(freed) + run
    {
      freed := freed + run;
    }

    /** Offer a run to a queue; what it does not accept is freed. */
    method Offer(run: seq<T>, d: nat, willing: int, ghost before: Contents<T>, ghost freed0: seq<T>, ghost s: seq<T>,
        ghost fate: Fate)
      returns (refused: nat, ghost fate': Fate)
      requires Settled(before, contents, freed0, freed, s, fate)
      modifies this
      ensures Settled(before, contents, freed0, freed, s + run, fate')
      ensures refused == |run| - Taken(willing, |run|) && fate' == fate + Prefix(|run|, Taken(willing, |run|), d)
    {
      hide Settled, Prefix;
      ghost var mid := contents;
      var ret := Enqueue(d, run, willing);
      if ret < 0 { ret := 0; }
      SettledRun(before, mid, contents, freed0, freed, s, fate, run, d, ret);
      assert freed + run[|run|..] == freed;
      if ret < |run| {
        Free(run[ret..]);
      }
      refused := |run| - ret;
      fate' := fate + Prefix(|run|, ret, d);
    }
  }
}
