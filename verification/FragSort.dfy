/**
  The insertion sort of a fragment list.  Lists are written from the tail, the fragment that
  was linked in last; sorted lists have the latest fragment at the tail.
 */
module FragSort {
  import opened FragOrder

  function InsertBehind(x: Frag, t: seq<Frag>, now: nat): (r: seq<Frag>)
    ensures |r| == |t| + 1
  {
    if t == [] || !Later(t[0], x, now) then [x] + t else [t[0]] + InsertBehind(x, t[1..], now)
  }

  /** Insertion of one fragment: in front of the tail if later, else behind the later ones that follow the tail. */
  function Insert(x: Frag, s: seq<Frag>, now: nat): (r: seq<Frag>)
    ensures |r| == |s| + 1
  {
    if s == [] || Later(x, s[0], now) then [x] + s else [s[0]] + InsertBehind(x, s[1..], now)
  }

  function SortInto(sorted: seq<Frag>, rest: seq<Frag>, now: nat): (r: seq<Frag>)
    decreases |rest|
  {
    if rest == [] then sorted else SortInto(Insert(rest[0], sorted, now), rest[1..], now)
  }

  function Sort(s: seq<Frag>, now: nat): (r: seq<Frag>) { SortInto([], s, now) }

  lemma {:induction false} InsertBehindPermutes(x: Frag, t: seq<Frag>, now: nat)
    ensures multiset(InsertBehind(x, t, now)) == multiset(t) + multiset{x}
    decreases |t|
  {
    if t != [] {
      assert t == [t[0]] + t[1..];
      InsertBehindPermutes(x, t[1..], now);
    }
  }

  lemma InsertPermutes(x: Frag, s: seq<Frag>, now: nat)
    ensures multiset(Insert(x, s, now)) == multiset(s) + multiset{x}
  {
    if s != [] {
      assert s == [s[0]] + s[1..];
      InsertBehindPermutes(x, s[1..], now);
    }
  }

  lemma {:induction false} SortIntoPermutes(sorted: seq<Frag>, rest: seq<Frag>, now: nat)
    ensures multiset(SortInto(sorted, rest, now)) == multiset(sorted) + multiset(rest)
    decreases |rest|
  {
    if rest != [] {
      assert rest == [rest[0]] + rest[1..];
      InsertPermutes(rest[0], sorted, now);
      SortIntoPermutes(Insert(rest[0], sorted, now), rest[1..], now);
    }
  }

  /** Sorting permutes, whatever the flows are. */
  lemma SortPermutes(s: seq<Frag>, now: nat)
    ensures multiset(Sort(s, now)) == multiset(s)
  {
    SortIntoPermutes([], s, now);
  }

  ghost predicate Sorted(s: seq<Frag>, now: nat) {
    forall i, j {:trigger Later(s[i], s[j], now)} :: 0 <= i < j < |s| ==> Later(s[i], s[j], now)
  }

  ghost predicate Distinct(s: seq<Frag>) {
    forall i, j :: 0 <= i < j < |s| ==> s[i] != s[j]
  }

  ghost predicate Within(s: seq<Frag>, u: set<Frag>) { forall x :: x in s ==> x in u }

  ghost function Elems(s: seq<Frag>): (u: set<Frag>) { set x | x in s }

  lemma InMultiset(s: seq<Frag>, x: Frag)
    ensures x in multiset(s) <==> x in s
  {
  }

  /** Two lists with the same members, counted, have the same elements and the same distinctness. */
  lemma PermutedMembers(s: seq<Frag>, t: seq<Frag>)
    requires multiset(s) == multiset(t)
    ensures forall x :: x in s <==> x in t
    ensures |s| == |t|
  {
    forall x ensures x in s <==> x in t {
      InMultiset(s, x);
      InMultiset(t, x);
    }
    assert |multiset(s)| == |s| && |multiset(t)| == |t|;
  }

  lemma {:induction false} CountDistinct(s: seq<Frag>, x: Frag)
    requires Distinct(s)
    ensures multiset(s)[x] == if x in s then 1 else 0
    decreases |s|
  {
    if s != [] {
      var t := s[1..];
      assert s == [s[0]] + t;
      assert Distinct(t) by {
        forall i, j | 0 <= i < j < |t| ensures t[i] != t[j] { assert s[i + 1] != s[j + 1]; }
      }
      CountDistinct(t, x);
      assert s[0] !in t;
    }
  }

  lemma {:induction false} DistinctByCount(s: seq<Frag>)
    ensures Distinct(s) <==> forall x :: multiset(s)[x] <= 1
  {
    if Distinct(s) {
      forall x ensures multiset(s)[x] <= 1 { CountDistinct(s, x); }
    } else {
      var i, j :| 0 <= i < j < |s| && s[i] == s[j];
      assert s == s[..j] + s[j..];
      assert s[i] in s[..j] && s[j] in s[j..];
      assert multiset(s) == multiset(s[..j]) + multiset(s[j..]);
      InMultiset(s[..j], s[i]);
      InMultiset(s[j..], s[j]);
      assert multiset(s)[s[i]] >= 2;
    }
  }

  lemma PermutedDistinct(s: seq<Frag>, t: seq<Frag>)
    requires multiset(s) == multiset(t) && Distinct(s)
    ensures Distinct(t)
  {
    DistinctByCount(s);
    DistinctByCount(t);
  }

  /** A fragment later than every member can be put in front of a sorted list. */
  lemma SortedCons(h: Frag, t: seq<Frag>, now: nat)
    requires Sorted(t, now) && forall x :: x in t ==> Later(h, x, now)
    ensures Sorted([h] + t, now)
  {
    var s := [h] + t;
    forall i, j | 0 <= i < j < |s| ensures Later(s[i], s[j], now) {
      assert s[j] == t[j - 1];
      if i > 0 { assert s[i] == t[i - 1]; }
    }
  }

  lemma SortedTail(s: seq<Frag>, now: nat)
    requires Sorted(s, now) && s != []
    ensures Sorted(s[1..], now)
    ensures forall x :: x in s[1..] ==> Later(s[0], x, now)
  {
    var t := s[1..];
    forall i, j | 0 <= i < j < |t| ensures Later(t[i], t[j], now) {
      assert Later(s[i + 1], s[j + 1], now);
    }
  }

  lemma {:induction false} InsertBehindSorts(x: Frag, t: seq<Frag>, u: set<Frag>, now: nat)
    requires Sane(u) && FlowsOrdered(u) && Within(t, u) && x in u && x !in t
    requires Sorted(t, now)
    ensures Sorted(InsertBehind(x, t, now), now)
    decreases |t|
  {
    if t == [] {
    } else if !Later(t[0], x, now) {
      forall y | y in t ensures Later(x, y, now) {
        LaterTotal(u, x, t[0], now);
        if y != t[0] {
          SortedTail(t, now);
          LaterTransitive(u, x, t[0], y, now);
        }
      }
      SortedCons(x, t, now);
    } else {
      SortedTail(t, now);
      InsertBehindSorts(x, t[1..], u, now);
      var r := InsertBehind(x, t[1..], now);
      InsertBehindPermutes(x, t[1..], now);
      forall y | y in r ensures Later(t[0], y, now) {
        InMultiset(r, y);
        InMultiset(t[1..], y);
      }
      SortedCons(t[0], r, now);
    }
  }

  lemma InsertSorts(x: Frag, s: seq<Frag>, u: set<Frag>, now: nat)
    requires Sane(u) && FlowsOrdered(u) && Within(s, u) && x in u && x !in s
    requires Sorted(s, now)
    ensures Sorted(Insert(x, s, now), now)
  {
    if s == [] {
    } else if Later(x, s[0], now) {
      SortedTail(s, now);
      forall y | y in s ensures Later(x, y, now) {
        if y != s[0] { LaterTransitive(u, x, s[0], y, now); }
      }
      SortedCons(x, s, now);
    } else {
      SortedTail(s, now);
      LaterTotal(u, x, s[0], now);
      InsertBehindSorts(x, s[1..], u, now);
      var r := InsertBehind(x, s[1..], now);
      InsertBehindPermutes(x, s[1..], now);
      forall y | y in r ensures Later(s[0], y, now) {
        InMultiset(r, y);
        InMultiset(s[1..], y);
      }
      SortedCons(s[0], r, now);
    }
  }

  lemma {:induction false} SortIntoSorts(sorted: seq<Frag>, rest: seq<Frag>, u: set<Frag>, now: nat)
    requires Sane(u) && FlowsOrdered(u) && Within(sorted, u) && Within(rest, u)
    requires Distinct(rest) && forall x :: x in rest ==> x !in sorted
    requires Sorted(sorted, now)
    ensures Sorted(SortInto(sorted, rest, now), now)
    decreases |rest|
  {
    if rest != [] {
      var x, next := rest[0], Insert(rest[0], sorted, now);
      InsertSorts(x, sorted, u, now);
      InsertPermutes(x, sorted, now);
      forall y ensures y in next <==> y == x || y in sorted {
        InMultiset(next, y);
        InMultiset(sorted, y);
      }
      SortIntoSorts(next, rest[1..], u, now);
    }
  }

  /** Sane fragments of ordered flows come out in descending order. */
  lemma SortSorts(s: seq<Frag>, u: set<Frag>, now: nat)
    requires Sane(u) && FlowsOrdered(u) && Within(s, u) && Distinct(s)
    ensures Sorted(Sort(s, now), now)
  {
    SortIntoSorts([], s, u, now);
  }

  predicate Between(i: int, j: int, k: int) { i < j < k }

  ghost predicate Contiguous(s: seq<Frag>) {
    forall i, j, k {:trigger Between(i, j, k)} ::
      0 <= i && Between(i, j, k) && k < |s| && EqualFlow(s[i], s[k]) ==> EqualFlow(s[i], s[j])
  }

  /** In a sorted list of ordered flows the fragments of a flow are adjacent. */
  lemma SortedContiguous(s: seq<Frag>, u: set<Frag>, now: nat)
    requires FlowsOrdered(u) && Within(s, u) && Sorted(s, now)
    ensures Contiguous(s)
  {
    forall i, j, k | 0 <= i && Between(i, j, k) && k < |s| && EqualFlow(s[i], s[k]) ensures EqualFlow(s[i], s[j]) {
      assert Later(s[i], s[j], now) && Later(s[j], s[k], now);
      assert s[i] in s && s[j] in s;
      assert Ordered(s[i].flow, s[j].flow);
    }
  }
}
