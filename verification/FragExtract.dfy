/**
  Cutting complete datagrams out of a sorted fragment list, and what this finds and leaves.
 */
module FragExtract {
  import opened FragOrder
  import opened FragSort

  /** End of the run of equal flows that begins at position k. */
  function RunEnd(s: seq<Frag>, k: nat): (m: nat)
    requires k < |s|
    ensures k < m <= |s|
    ensures forall i :: k <= i < m ==> EqualFlow(s[k], s[i])
    ensures m < |s| ==> !EqualFlow(s[k], s[m])
    decreases |s| - k
  {
    if k + 1 == |s| || !EqualFlow(s[k], s[k + 1]) then k + 1 else RunEnd(s, k + 1)
  }

  /**
    The walk through a run that ends at m, from position i on: the final fragment must lack
    "more fragments", every fragment must begin where the next one from the tail ends, and the
    last one reached must have offset zero.
   */
  predicate Scan(s: seq<Frag>, i: nat, m: nat, finalOff: nat)
    requires i < m <= |s|
    decreases m - i
  {
    if s[i].off == finalOff && s[i].more then false
    else if i + 1 == m then s[i].off == 0
    else if s[i].off != s[i + 1].Limit() then false
    else Scan(s, i + 1, m, finalOff)
  }

  predicate CompleteAt(s: seq<Frag>, k: nat, m: nat)
    requires k < m <= |s|
  {
    Scan(s, k, m, s[k].off)
  }

  /** The place of a run in a list. */
  datatype Span = Nowhere | At(from: nat, to: nat)

  /** The first complete run from position k on. */
  function Locate(s: seq<Frag>, k: nat): (p: Span)
    requires k <= |s|
    ensures p.At? ==> k <= p.from < p.to <= |s|
    decreases |s| - k
  {
    if k == |s| then Nowhere
    else
      var m := RunEnd(s, k);
      if CompleteAt(s, k, m) then At(k, m) else Locate(s, m)
  }

  /** The list without the fragments from k to m. */
  function Without(s: seq<Frag>, k: nat, m: nat): (r: seq<Frag>)
    requires k <= m <= |s|
    ensures |r| == |s| - (m - k)
    ensures forall i {:trigger r[i]} :: 0 <= i < |r| ==> r[i] == s[if i < k then i else i + (m - k)]
  {
    s[..k] + s[m..]
  }

  datatype Extraction = NotFound | Found(datagram: seq<Frag>, rest: seq<Frag>)

  /** The first complete run from the tail, and the list without it. */
  function Extract(s: seq<Frag>): (r: Extraction) {
    match Locate(s, 0)
    case Nowhere => NotFound
    case At(k, m) => Found(s[k..m], Without(s, k, m))
  }

  /** Fragment i begins where the next one from the tail ends. */
  predicate Joined(d: seq<Frag>, i: nat)
    requires i + 1 < |d|
  {
    d[i].off == d[i + 1].Limit()
  }

  /**
    A datagram: fragments of one flow without gaps, from offset zero up to a last fragment without
    "more fragments".
   */
  ghost predicate Datagram(d: seq<Frag>) {
    && d != []
    && (forall i :: 0 <= i < |d| ==> EqualFlow(d[0], d[i]))
    && !d[0].more
    && d[|d| - 1].off == 0
    && (forall i :: 0 <= i < |d| - 1 ==> Joined(d, i))
  }

  ghost predicate Included(d: seq<Frag>, s: seq<Frag>) { forall x :: x in d ==> x in s }

  /** Some of the fragments of a list make up a datagram. */
  ghost predicate HasDatagram(s: seq<Frag>) { exists d :: Datagram(d) && Included(d, s) }

  /** The walk accepts the run from i to m. */
  lemma {:induction false} ScanIff(s: seq<Frag>, i: nat, m: nat, finalOff: nat)
    requires i < m <= |s|
    ensures Scan(s, i, m, finalOff) <==>
            && s[m - 1].off == 0
            && (forall x :: i <= x < m - 1 ==> Joined(s, x))
            && (forall x :: i <= x < m && s[x].off == finalOff ==> !s[x].more)
    decreases m - i
  {
    if i + 1 < m {
      ScanIff(s, i + 1, m, finalOff);
      if s[i].off != s[i + 1].Limit() { assert !Joined(s, i); }
    }
  }

  /** Without gaps, fragments with payload have ever lower offsets. */
  lemma {:induction false} LowerOffsets(s: seq<Frag>, k: nat, i: nat)
    requires k < i < |s| && (forall x :: k <= x < i ==> Joined(s, x)) && forall x :: k <= x <= i ==> s[x].oct > 0
    ensures s[i].off < s[k].off
    decreases i
  {
    assert Joined(s, i - 1);
    if k < i - 1 { LowerOffsets(s, k, i - 1); }
  }

  /**
    The run from k to m is complete exactly when it is a datagram and no fragment at the final
    offset has "more fragments" set.
   */
  lemma CompleteIsDatagram(s: seq<Frag>, k: nat, m: nat)
    requires k < m <= |s|
    requires forall i :: k <= i < m ==> EqualFlow(s[k], s[i])
    ensures CompleteAt(s, k, m) <==> Datagram(s[k..m]) && forall i :: k <= i < m && s[i].off == s[k].off ==> !s[i].more
  {
    var d := s[k..m];
    ScanIff(s, k, m, s[k].off);
    assert d[0] == s[k] && d[|d| - 1] == s[m - 1];
    if forall x :: k <= x < m - 1 ==> Joined(s, x) {
      forall i | 0 <= i < |d| - 1 ensures Joined(d, i) { assert Joined(s, k + i); }
    }
    if Datagram(d) {
      forall x | k <= x < m - 1 ensures Joined(s, x) { assert Joined(d, x - k); }
    }
  }

  /** If all fragments have payload, the run is complete exactly when it is a datagram. */
  lemma PayloadComplete(s: seq<Frag>, k: nat, m: nat)
    requires k < m <= |s|
    requires forall i :: k <= i < m ==> EqualFlow(s[k], s[i]) && s[i].oct > 0
    ensures CompleteAt(s, k, m) <==> Datagram(s[k..m])
  {
    CompleteIsDatagram(s, k, m);
    if Datagram(s[k..m]) {
      forall x | k <= x < m - 1 ensures Joined(s, x) { assert Joined(s[k..m], x - k); }
      forall i | k < i < m ensures s[i].off < s[k].off { LowerOffsets(s, k, i); }
    }
  }

  /** What is located is a datagram and a maximal run; no complete run lies nearer to the tail. */
  lemma {:induction false} LocateSound(s: seq<Frag>, k: nat)
    requires k <= |s| && Locate(s, k).At?
    ensures var p := Locate(s, k);
            && Datagram(s[p.from..p.to])
            && p.to == RunEnd(s, p.from)
            && (p.from > k ==> !EqualFlow(s[p.from - 1], s[p.from]))
    decreases |s| - k
  {
    hide CompleteAt, RunEnd, Datagram;
    var m := RunEnd(s, k);
    if CompleteAt(s, k, m) {
      CompleteIsDatagram(s, k, m);
    } else {
      LocateSound(s, m);
      assert EqualFlow(s[k], s[m - 1]);
    }
  }

  /** Extraction cuts a datagram out of the list, possibly from its middle, and keeps the order of the rest. */
  lemma ExtractSound(s: seq<Frag>) returns (k: nat, m: nat)
    requires Extract(s).Found?
    ensures k < m <= |s|
    ensures Extract(s).datagram == s[k..m] && Extract(s).rest == Without(s, k, m)
    ensures Datagram(s[k..m])
    ensures m < |s| ==> !EqualFlow(s[k], s[m])
    ensures k > 0 ==> !EqualFlow(s[k - 1], s[k])
  {
    LocateSound(s, 0);
    k, m := Locate(s, 0).from, Locate(s, 0).to;
  }

  lemma WithoutMultiset(s: seq<Frag>, k: nat, m: nat)
    requires k <= m <= |s|
    ensures multiset(s[k..m]) + multiset(Without(s, k, m)) == multiset(s)
  {
    assert s == s[..k] + s[k..m] + s[m..];
  }

  lemma ExtractConserves(s: seq<Frag>)
    requires Extract(s).Found?
    ensures multiset(Extract(s).datagram) + multiset(Extract(s).rest) == multiset(s)
    ensures |Extract(s).rest| < |s|
    ensures Datagram(Extract(s).datagram)
  {
    var k, m := ExtractSound(s);
    WithoutMultiset(s, k, m);
  }

  /** Positions further from the tail of a sorted run lie in front in the datagram. */
  lemma Descending(run: seq<Frag>, u: set<Frag>, now: nat, a: nat, b: nat)
    requires Sane(u) && Within(run, u) && Sorted(run, now) && Distinct(run)
    requires forall k :: 0 <= k < |run| ==> EqualFlow(run[0], run[k])
    requires a < b < |run|
    ensures run[b].off < run[b].Limit() <= run[a].off < run[a].Limit() && run[b].more
  {
    assert run[a] in run && run[b] in run;
    assert Later(run[a], run[b], now);
    LaterInFlow(u, run[a], run[b], now);
  }

  /** A sorted run of one flow, of which some fragments make up a datagram, agrees with it position by position. */
  lemma {:induction false} RunIsDatagram(run: seq<Frag>, d: seq<Frag>, u: set<Frag>, now: nat, i: nat)
    requires Sane(u) && Within(run, u) && Sorted(run, now) && Distinct(run)
    requires forall j :: 0 <= j < |run| ==> EqualFlow(run[0], run[j])
    requires Datagram(d) && Included(d, run)
    requires i < |d|
    ensures i < |run| && run[i] == d[i]
    decreases i
  {
    hide Sane, Within, Sorted, Distinct, EqualFlow;
    assert d[i] in d;
    var j :| 0 <= j < |run| && run[j] == d[i];
    if i == 0 {
      if j > 0 { Descending(run, u, now, 0, j); }
    } else {
      RunIsDatagram(run, d, u, now, i - 1);
      assert Joined(d, i - 1);
      NextInRun(run, u, now, i, j);
    }
  }

  /** The fragment of a sorted run that ends where the one at i - 1 begins is at i. */
  lemma NextInRun(run: seq<Frag>, u: set<Frag>, now: nat, i: nat, j: nat)
    requires Sane(u) && Within(run, u) && Sorted(run, now) && Distinct(run)
    requires forall k :: 0 <= k < |run| ==> EqualFlow(run[0], run[k])
    requires 0 < i <= |run| && j < |run| && run[i - 1].off == run[j].Limit()
    ensures j == i
  {
    assert run[j] in run;
    if j < i - 1 {
      Descending(run, u, now, j, i - 1);
    } else if j > i {
      Descending(run, u, now, i - 1, i);
      Descending(run, u, now, i, j);
    }
  }

  lemma RunEqualsDatagram(run: seq<Frag>, d: seq<Frag>, u: set<Frag>, now: nat)
    requires Sane(u) && Within(run, u) && Sorted(run, now) && Distinct(run)
    requires forall j :: 0 <= j < |run| ==> EqualFlow(run[0], run[j])
    requires Datagram(d) && Included(d, run)
    ensures run == d
  {
    forall i | 0 <= i < |d| ensures i < |run| && run[i] == d[i] {
      RunIsDatagram(run, d, u, now, i);
    }
    var n := |d|;
    if n < |run| { Descending(run, u, now, n - 1, n); }
  }

  lemma SliceSorted(s: seq<Frag>, k: nat, m: nat, u: set<Frag>, now: nat)
    requires k <= m <= |s| && Within(s, u) && Sorted(s, now) && Distinct(s)
    ensures Within(s[k..m], u) && Sorted(s[k..m], now) && Distinct(s[k..m])
  {
    var t := s[k..m];
    forall i, j | 0 <= i < j < |t| ensures Later(t[i], t[j], now) && t[i] != t[j] {
      assert Later(s[k + i], s[k + j], now) && s[k + i] != s[k + j];
    }
  }

  /** A datagram of the flow at k is in the run at k. */
  lemma DatagramInRun(s: seq<Frag>, k: nat, d: seq<Frag>)
    requires k < |s| && Contiguous(s) && Datagram(d) && Included(d, s[k..]) && EqualFlow(s[k], d[0])
    ensures Included(d, s[k..RunEnd(s, k)])
  {
    forall x | x in d ensures x in s[k..RunEnd(s, k)] {
      DatagramFlow(d, x);
      assert EqualFlow(s[k], x) && x in s[k..];
      hide EqualFlow, Contiguous, RunEnd, Datagram;
      InRun(s, k, x);
    }
  }

  /** A run is of one flow. */
  lemma RunFlow(s: seq<Frag>, k: nat)
    requires k < |s|
    ensures var m := RunEnd(s, k); k < m && forall i :: k <= i < m ==> EqualFlow(s[k], s[i])
    ensures var run := s[k..RunEnd(s, k)]; forall i :: 0 <= i < |run| ==> EqualFlow(run[0], run[i])
  {
    var m := RunEnd(s, k);
    hide RunEnd, EqualFlow;
    var run := s[k..m];
    forall i | 0 <= i < |run| ensures EqualFlow(run[0], run[i]) { assert run[i] == s[k + i]; }
  }

  lemma WithPayload(s: seq<Frag>, u: set<Frag>)
    requires Sane(u) && Within(s, u)
    ensures forall i :: 0 <= i < |s| ==> s[i].oct > 0
  {
    forall i | 0 <= i < |s| ensures s[i].oct > 0 { assert s[i] in s; }
  }

  /** A datagram all of whose fragments come at or after the beginning of its run is that run. */
  lemma RunFound(s: seq<Frag>, k: nat, d: seq<Frag>, u: set<Frag>, now: nat)
    requires Sane(u) && Within(s, u) && Sorted(s, now) && Distinct(s) && Contiguous(s)
    requires k < |s| && Datagram(d) && Included(d, s[k..]) && EqualFlow(s[k], d[0])
    ensures CompleteAt(s, k, RunEnd(s, k))
  {
    hide RunEnd, CompleteAt, Sorted, Contiguous, Distinct, EqualFlow, Datagram, Sane, Within, Included;
    var m := RunEnd(s, k);
    var run := s[k..m];
    RunFlow(s, k);
    WithPayload(s, u);
    SliceSorted(s, k, m, u, now);
    DatagramInRun(s, k, d);
    RunEqualsDatagram(run, d, u, now);
    PayloadComplete(s, k, m);
  }

  lemma DatagramFlow(d: seq<Frag>, x: Frag)
    requires Datagram(d) && x in d
    ensures EqualFlow(d[0], x)
  {
  }

  /** Behind position k, exactly the run at k has the flow at k. */
  lemma RunIsFlow(s: seq<Frag>, k: nat, i: nat)
    requires k <= i < |s| && Contiguous(s)
    ensures i < RunEnd(s, k) <==> EqualFlow(s[k], s[i])
  {
    hide RunEnd, EqualFlow;
    var m := RunEnd(s, k);
    if i > m { assert Between(k, m, i); }
  }

  lemma InRun(s: seq<Frag>, k: nat, x: Frag)
    requires k < |s| && Contiguous(s) && x in s[k..]
    ensures EqualFlow(s[k], x) ==> x in s[k..RunEnd(s, k)]
    ensures !EqualFlow(s[k], x) ==> x in s[RunEnd(s, k)..]
  {
    hide RunEnd, EqualFlow, Contiguous;
    var m, t := RunEnd(s, k), s[k..];
    var j :| 0 <= j < |t| && t[j] == x;
    RunIsFlow(s, k, k + j);
    SliceHas(s, k, m, k + j);
  }

  lemma SliceHas(s: seq<Frag>, k: nat, m: nat, i: nat)
    requires k <= m <= |s| && k <= i < |s|
    ensures i < m ==> s[i] in s[k..m]
    ensures i >= m ==> s[i] in s[m..]
  {
    if i < m {
      assert s[k..m][i - k] == s[i];
    } else {
      assert s[m..][i - m] == s[i];
    }
  }

  /** In a sorted list of sane fragments, a datagram that is there is located. */
  lemma {:induction false} LocateFinds(s: seq<Frag>, k: nat, d: seq<Frag>, u: set<Frag>, now: nat)
    requires Sane(u) && Within(s, u) && Sorted(s, now) && Distinct(s) && Contiguous(s)
    requires k <= |s| && Datagram(d) && Included(d, s[k..])
    ensures Locate(s, k).At?
    decreases |s| - k
  {
    hide CompleteAt, Sorted, Contiguous, Distinct, RunEnd;
    assert d[0] in d;
    if EqualFlow(s[k], d[0]) {
      RunFound(s, k, d, u, now);
    } else {
      var m := RunEnd(s, k);
      forall x | x in d ensures x in s[m..] {
        DatagramFlow(d, x);
        InRun(s, k, x);
      }
      LocateFinds(s, m, d, u, now);
    }
  }

  /** A sorted list of sane, ordered fragments yields a datagram exactly when it contains one. */
  lemma ExtractExact(s: seq<Frag>, u: set<Frag>, now: nat)
    requires Sane(u) && FlowsOrdered(u) && Within(s, u) && Distinct(s) && Sorted(s, now)
    ensures Extract(s).Found? <==> HasDatagram(s)
  {
    SortedContiguous(s, u, now);
    if HasDatagram(s) {
      var d :| Datagram(d) && Included(d, s);
      assert s[0..] == s;
      LocateFinds(s, 0, d, u, now);
    }
    if Extract(s).Found? {
      var k, m := ExtractSound(s);
      assert Datagram(s[k..m]) && Included(s[k..m], s);
    }
  }

  /** Sorting and extracting finds a datagram exactly when the fragments contain one. */
  lemma SortExtractExact(s: seq<Frag>, u: set<Frag>, now: nat)
    requires Sane(u) && FlowsOrdered(u) && Within(s, u) && Distinct(s)
    ensures Extract(Sort(s, now)).Found? <==> HasDatagram(s)
  {
    var t := Sort(s, now);
    SortPermutes(s, now);
    PermutedMembers(s, t);
    PermutedDistinct(s, t);
    SortSorts(s, u, now);
    ExtractExact(t, u, now);
    SameDatagrams(s, t);
  }

  lemma SameDatagrams(s: seq<Frag>, t: seq<Frag>)
    requires forall x :: x in s <==> x in t
    ensures HasDatagram(s) <==> HasDatagram(t)
  {
    if HasDatagram(s) {
      var d :| Datagram(d) && Included(d, s);
      assert Included(d, t);
    }
    if HasDatagram(t) {
      var d :| Datagram(d) && Included(d, t);
      assert Included(d, s);
    }
  }

  /** The remainder of a sorted list is sorted, so that extraction can be repeated without sorting again. */
  lemma WithoutSorted(s: seq<Frag>, k: nat, m: nat, u: set<Frag>, now: nat)
    requires k <= m <= |s| && Within(s, u) && Sorted(s, now) && Distinct(s)
    ensures Within(Without(s, k, m), u) && Sorted(Without(s, k, m), now) && Distinct(Without(s, k, m))
  {
    var r := Without(s, k, m);
    forall i, j | 0 <= i < j < |r| ensures Later(r[i], r[j], now) && r[i] != r[j] {
      var i', j' := if i < k then i else i + (m - k), if j < k then j else j + (m - k);
      assert Later(s[i'], s[j'], now) && s[i'] != s[j'];
    }
    forall x | x in r ensures x in u {
      assert x in s;
    }
  }
}
