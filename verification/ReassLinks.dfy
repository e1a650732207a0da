/**
  Lists of fragment records in memory: which record follows which, and the summary of a list
  that a bucket word carries.
 */
module ReassLinks {
  import opened Basics
  import opened IpHeader
  import opened FragOrder
  import opened FragSort
  import opened FragExtract
  import opened ReassState

  /** The address that follows position i of a list which continues at `end`. */
  function NextId(s: seq<Frag>, i: nat, end: Option<nat>): (id: Option<nat>)
    requires i < |s|
  {
    if i + 1 < |s| then Some(s[i + 1].id) else end
  }

  predicate LinkOk(links: Links, s: seq<Frag>, i: nat, end: Option<nat>)
    requires i < |s|
  {
    s[i].id in links && links[s[i].id] == NextId(s, i, end)
  }

  /** Memory holds the list, which continues at `end`. */
  ghost predicate Linked(links: Links, s: seq<Frag>, end: Option<nat>) {
    forall i :: 0 <= i < |s| ==> LinkOk(links, s, i, end)
  }

  /** The addresses reached from `at` by following n links. */
  function Walk(links: Links, at: Option<nat>, n: nat): (r: seq<nat>)
    decreases n
  {
    if n == 0 || at.None? || at.value !in links then [] else [at.value] + Walk(links, links[at.value], n - 1)
  }

  /** Following the links from the tail reaches exactly the fragments of the list, in order, and stops. */
  lemma {:induction false} LinkedWalk(links: Links, s: seq<Frag>, n: nat)
    requires Linked(links, s, None) && n >= |s|
    ensures |Walk(links, TailOf(s), n)| == |s|
    ensures forall i :: 0 <= i < |s| ==> Walk(links, TailOf(s), n)[i] == s[i].id
    decreases |s|
  {
    if s != [] {
      var t := s[1..];
      assert LinkOk(links, s, 0, None);
      forall i | 0 <= i < |t| ensures LinkOk(links, t, i, None) {
        assert LinkOk(links, s, i + 1, None);
      }
      LinkedWalk(links, t, n - 1);
      forall i | 0 <= i < |s| ensures Walk(links, TailOf(s), n)[i] == s[i].id {
        if i > 0 { assert s[i] == t[i - 1]; }
      }
    }
  }

  predicate SameLink(l: Links, l': Links, x: Frag) {
    (x.id in l' <==> x.id in l) && (x.id in l ==> l'[x.id] == l[x.id])
  }

  ghost predicate SameLinks(l: Links, l': Links, s: seq<Frag>) { forall i :: 0 <= i < |s| ==> SameLink(l, l', s[i]) }

  /** A list is not affected by writes to other records. */
  lemma LinkedFrame(l: Links, l': Links, s: seq<Frag>, end: Option<nat>)
    requires Linked(l, s, end) && SameLinks(l, l', s)
    ensures Linked(l', s, end)
  {
    forall i | 0 <= i < |s| ensures LinkOk(l', s, i, end) {
      assert LinkOk(l, s, i, end) && SameLink(l, l', s[i]);
    }
  }

  lemma LinkedAppend(l: Links, s: seq<Frag>, u: seq<Frag>)
    requires Linked(l, s, TailOf(u)) && Linked(l, u, None)
    ensures Linked(l, s + u, None)
  {
    var r := s + u;
    forall i | 0 <= i < |r| ensures LinkOk(l, r, i, None) {
      if i < |s| {
        assert LinkOk(l, s, i, TailOf(u));
      } else {
        assert LinkOk(l, u, i - |s|, None);
      }
    }
  }

  /** Fragments with different addresses. */
  ghost predicate Addressed(s: seq<Frag>) { forall i, j :: 0 <= i < j < |s| ==> s[i].id != s[j].id }

  lemma DistinctAddressed(c: Config, s: seq<Frag>)
    requires c.Valid() && Distinct(s) && Within(s, c.universe)
    ensures Addressed(s)
  {
    forall i, j | 0 <= i < j < |s| ensures s[i].id != s[j].id {
      assert s[i] in s && s[j] in s && s[i] != s[j];
    }
  }

  /** The head of a list is linked to somewhere else. */
  lemma LinkedHead(l: Links, s: seq<Frag>, end: Option<nat>, end': Option<nat>)
    requires Linked(l, s, end) && s != [] && Addressed(s)
    ensures Linked(l[HeadOf(s) := end'], s, end')
  {
    var l' := l[HeadOf(s) := end'];
    forall i | 0 <= i < |s| ensures LinkOk(l', s, i, end') {
      assert LinkOk(l, s, i, end);
    }
  }

  lemma {:induction false} LinkOther(l: Links, s: seq<Frag>, x: Frag)
    requires forall i :: 0 <= i < |s| ==> s[i].id != x.id
    ensures SameLink(l, Link(l, s), x)
    decreases |s|
  {
    if s != [] { LinkOther(l, s[1..], x); }
  }

  /** Rewriting all links of a list makes memory hold it. */
  lemma {:induction false} LinkAll(l: Links, s: seq<Frag>)
    requires Addressed(s)
    ensures Linked(Link(l, s), s, None)
    decreases |s|
  {
    if s != [] {
      var t, l1, l2 := s[1..], Link(l, s[1..]), Link(l, s);
      LinkAll(l, t);
      forall i | 0 <= i < |s| ensures LinkOk(l2, s, i, None) {
        if i > 0 {
          assert LinkOk(l1, t, i - 1, None);
          assert s[0].id != s[i].id;
        }
      }
    }
  }

  /** Linking around a slice takes it out of the list. */
  lemma BypassLinked(l: Links, s: seq<Frag>, k: nat, m: nat)
    requires Linked(l, s, None) && Addressed(s) && k <= m <= |s|
    ensures Linked(Bypass(l, s, k, m), Without(s, k, m), None)
  {
    var l', r := Bypass(l, s, k, m), Without(s, k, m);
    forall i | 0 <= i < |r| ensures LinkOk(l', r, i, None) {
      var o := if i < k then i else i + (m - k);
      assert LinkOk(l, s, o, None) && r[i] == s[o];
      if k > 0 && o != k - 1 {
        assert s[o].id != s[k - 1].id;
      }
    }
  }

  function SumOct(s: seq<Frag>): (n: nat)
    decreases |s|
  {
    if s == [] then 0 else s[0].oct + SumOct(s[1..])
  }

  lemma {:induction false} SumOctAppend(s: seq<Frag>, u: seq<Frag>)
    ensures SumOct(s + u) == SumOct(s) + SumOct(u)
    decreases |s|
  {
    if s == [] {
      assert s + u == u;
    } else {
      assert (s + u)[1..] == s[1..] + u;
      SumOctAppend(s[1..], u);
    }
  }

  lemma Cut(s: seq<Frag>, k: nat, m: nat)
    requires k <= m <= |s|
    ensures s == s[..k] + s[k..m] + s[m..]
  {
  }

  lemma SumOctParts(x: seq<Frag>, y: seq<Frag>, z: seq<Frag>)
    ensures SumOct(x + y + z) == SumOct(x + z) + SumOct(y)
  {
    hide SumOct;
    SumOctAppend(x + y, z);
    SumOctAppend(x, y);
    SumOctAppend(x, z);
  }

  lemma SumOctWithout(s: seq<Frag>, k: nat, m: nat)
    requires k <= m <= |s|
    ensures SumOct(s) == SumOct(Without(s, k, m)) + SumOct(s[k..m])
  {
    hide SumOct;
    Cut(s, k, m);
    SumOctParts(s[..k], s[k..m], s[m..]);
  }

  lemma {:induction false} SumOctInsertBehind(x: Frag, t: seq<Frag>, now: nat)
    ensures SumOct(InsertBehind(x, t, now)) == SumOct(t) + x.oct
    decreases |t|
  {
    hide Later;
    if t == [] || !Later(t[0], x, now) {
      assert ([x] + t)[1..] == t;
    } else {
      var r := InsertBehind(x, t[1..], now);
      assert ([t[0]] + r)[1..] == r;
      SumOctInsertBehind(x, t[1..], now);
    }
  }

  lemma SumOctInsert(x: Frag, s: seq<Frag>, now: nat)
    ensures SumOct(Insert(x, s, now)) == SumOct(s) + x.oct
  {
    hide Later;
    if s == [] || Later(x, s[0], now) {
      assert ([x] + s)[1..] == s;
    } else {
      var r := InsertBehind(x, s[1..], now);
      assert ([s[0]] + r)[1..] == r;
      SumOctInsertBehind(x, s[1..], now);
    }
  }

  lemma {:induction false} SumOctSortInto(sorted: seq<Frag>, rest: seq<Frag>, now: nat)
    ensures SumOct(SortInto(sorted, rest, now)) == SumOct(sorted) + SumOct(rest)
    decreases |rest|
  {
    if rest != [] {
      SumOctInsert(rest[0], sorted, now);
      SumOctSortInto(Insert(rest[0], sorted, now), rest[1..], now);
    }
  }

  lemma SumOctSort(s: seq<Frag>, now: nat)
    ensures SumOct(Sort(s, now)) == SumOct(s)
  {
    SumOctSortInto([], s, now);
  }

  /** Distinct members of a list add up to no more than the list. */
  lemma {:induction false} SumOctIncluded(d: seq<Frag>, s: seq<Frag>)
    requires Distinct(d) && Included(d, s)
    ensures SumOct(d) <= SumOct(s)
    decreases |d|
  {
    if d != [] {
      var x, rest := d[0], d[1..];
      assert x in d;
      var i :| 0 <= i < |s| && s[i] == x;
      var r := Without(s, i, i + 1);
      SumOctWithout(s, i, i + 1);
      assert s[i..i + 1] == [x];
      forall y | y in rest ensures y in r {
        assert y in d;
        var j :| 0 <= j < |rest| && rest[j] == y;
        assert d[j + 1] == y && y != x;
        var o :| 0 <= o < |s| && s[o] == y;
        assert r[if o < i then o else o - 1] == y;
      }
      SumOctIncluded(rest, r);
    }
  }

  /**
    The received length saturates no lower than the fragments' payload, and the length bound is no
    higher than that of any fragment.
   */
  ghost predicate Summary(w: Word, s: seq<Frag>) {
    && w.part <= IP_OCTET_MAX
    && Min(IP_OCTET_MAX, SumOct(s)) <= w.part
    && forall i :: 0 <= i < |s| ==> w.whole <= s[i].Whole()
  }

  lemma SummaryAppend(oldfl: Word, frags: Word, now: nat, s: seq<Frag>, u: seq<Frag>)
    requires Summary(frags, s) && Summary(oldfl, u)
    ensures Summary(NewWord(oldfl, frags, now), s + u)
  {
    SumOctAppend(s, u);
  }

  /** A summary of a list also covers any part of it. */
  lemma SummaryWithout(w: Word, s: seq<Frag>, k: nat, m: nat)
    requires Summary(w, s) && k <= m <= |s|
    ensures Summary(w, Without(s, k, m))
  {
    hide SumOct;
    SumOctWithout(s, k, m);
  }

  lemma SummarySort(w: Word, s: seq<Frag>, now: nat)
    requires Summary(w, s)
    ensures Summary(w, Sort(s, now))
  {
    hide Sort, SumOct;
    SumOctSort(s, now);
    SortPermutes(s, now);
    PermutedMembers(s, Sort(s, now));
    var r := Sort(s, now);
    forall i | 0 <= i < |r| ensures w.whole <= r[i].Whole() {
      assert r[i] in s;
    }
  }

  /** Counting more never spoils a summary. */
  lemma SummaryCount(w: Word, f: Frag, now: nat, s: seq<Frag>)
    requires Summary(w, s)
    ensures Summary(Count(w, f, now), s) && Count(w, f, now).tail == w.tail
  {
  }

  lemma {:induction false} SummaryRecount(w: Word, u: seq<Frag>, now: nat, s: seq<Frag>)
    requires Summary(w, s)
    ensures Summary(Recount(w, u, now), s) && Recount(w, u, now).tail == w.tail
    decreases |u|
  {
    hide Summary, Count;
    if u != [] {
      SummaryCount(w, u[0], now, s);
      SummaryRecount(Count(w, u[0], now), u[1..], now, s);
    }
  }

  /** The payload lengths of a datagram add up to its reassembled length. */
  lemma {:induction false} DatagramSum(d: seq<Frag>, k: nat)
    requires Datagram(d) && k < |d|
    ensures SumOct(d[k..]) == d[k].Limit()
    decreases |d| - k
  {
    if k + 1 < |d| {
      DatagramSum(d, k + 1);
      assert Joined(d, k);
      assert d[k..][1..] == d[k + 1..];
    } else {
      assert d[k..] == [d[k]];
    }
  }

  /** Offsets descend in a datagram. */
  lemma {:induction false} DatagramDescends(d: seq<Frag>, i: nat, j: nat)
    requires Datagram(d) && i < j < |d| && forall x :: x in d ==> x.oct > 0
    ensures d[i].off > d[j].off
    decreases j - i
  {
    assert Joined(d, i) && d[i + 1] in d;
    if i + 1 < j { DatagramDescends(d, i + 1, j); }
  }

  lemma DatagramDistinct(d: seq<Frag>)
    requires Datagram(d) && forall x :: x in d ==> x.oct > 0
    ensures Distinct(d)
  {
    forall i, j | 0 <= i < j < |d| ensures d[i] != d[j] {
      DatagramDescends(d, i, j);
    }
  }

  /** A list with a datagram passes the test of the lengths. */
  lemma SummaryAdmits(w: Word, s: seq<Frag>, d: seq<Frag>)
    requires Summary(w, s) && Datagram(d) && Included(d, s)
    requires forall x :: x in s ==> x.Framed() && x.oct > 0
    ensures w.whole <= w.part
  {
    hide SumOct;
    assert d[0] in d && d[0] in s;
    DatagramSum(d, 0);
    assert d[0..] == d;
    DatagramDistinct(d);
    SumOctIncluded(d, s);
  }

  /** The test of the lengths never misses a complete datagram. */
  lemma SummaryRulesOut(w: Word, s: seq<Frag>)
    requires Summary(w, s) && w.part < w.whole
    requires forall x :: x in s ==> x.Framed() && x.oct > 0
    ensures !HasDatagram(s)
  {
    if HasDatagram(s) {
      var d :| Datagram(d) && Included(d, s);
      SummaryAdmits(w, s, d);
    }
  }
}
