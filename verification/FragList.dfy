/**
  Fragment records linked through their `prev` fields, and the in-place list operations of the
  reassembler.  A list is given by its tail; the ghost sequence beside it lists the records
  from the tail on.
 */
module FragList {
  import opened Basics
  import opened FragOrder
  import opened FragSort
  import opened FragExtract

  /** A fragment record: only its link changes. */
  class Record {
    const frag: Frag
    var prev: Record?

    constructor (frag: Frag)
      ensures this.frag == frag && prev == null
    {
      this.frag := frag;
      prev := null;
    }
  }

  function Next(s: seq<Record>, i: nat): (r: Record?)
    requires i < |s|
  {
    if i + 1 < |s| then s[i + 1] else null
  }

  function First(s: seq<Record>): (r: Record?) { if s == [] then null else s[0] }

  /** The records of s are linked in that order from the tail, and the last link is null. */
  ghost predicate Chain(tail: Record?, s: seq<Record>)
    reads s
  {
    && NoRepeats(s)
    && tail == First(s)
    && forall i {:trigger s[i].prev} :: 0 <= i < |s| ==> s[i].prev == Next(s, i)
  }

  ghost function Frags(s: seq<Record>): (r: seq<Frag>)
    ensures |r| == |s| && forall i :: 0 <= i < |s| ==> r[i] == s[i].frag
  {
    seq(|s|, i requires 0 <= i < |s| => s[i].frag)
  }

  lemma FragsSlice(s: seq<Record>, k: nat, m: nat)
    requires k <= m <= |s|
    ensures Frags(s[k..m]) == Frags(s)[k..m]
  {
  }

  /** Linking x in at position p of a chain. */
  ghost function Inserted(s: seq<Record>, p: nat, x: Record): (r: seq<Record>)
    requires p <= |s|
    ensures |r| == |s| + 1
    ensures forall i :: 0 <= i < |r| ==> r[i] == if i < p then s[i] else if i == p then x else s[i - 1]
    ensures multiset(r) == multiset(s) + multiset{x}
  {
    assert s == s[..p] + s[p..];
    s[..p] + [x] + s[p..]
  }

  lemma InsertedNoRepeats(s: seq<Record>, p: nat, x: Record)
    requires p <= |s| && NoRepeats(s) && x !in s
    ensures NoRepeats(Inserted(s, p, x))
  {
  }

  /** Where InsertBehind puts x: behind the first c fragments, which are all later. */
  lemma {:induction false} InsertBehindAt(x: Frag, t: seq<Frag>, c: nat, now: nat)
    requires c <= |t|
    requires forall i :: 0 <= i < c ==> Later(t[i], x, now)
    requires c < |t| ==> !Later(t[c], x, now)
    ensures InsertBehind(x, t, now) == t[..c] + [x] + t[c..]
    decreases c
  {
    if c > 0 {
      InsertBehindAt(x, t[1..], c - 1, now);
      assert [t[0]] + (t[1..][..c - 1] + [x] + t[1..][c - 1..]) == t[..c] + [x] + t[c..];
    } else {
      assert t[..0] + [x] + t[0..] == [x] + t;
    }
  }

  lemma InsertAt(x: Frag, s: seq<Frag>, c: nat, now: nat)
    requires 0 < c <= |s| && !Later(x, s[0], now)
    requires forall i :: 1 <= i < c ==> Later(s[i], x, now)
    requires c < |s| ==> !Later(s[c], x, now)
    ensures Insert(x, s, now) == s[..c] + [x] + s[c..]
  {
    var t := s[1..];
    InsertBehindAt(x, t, c - 1, now);
    assert [s[0]] + (t[..c - 1] + [x] + t[c - 1..]) == s[..c] + [x] + s[c..];
  }

  lemma OnlyAt(s: seq<Record>, c: nat)
    requires NoRepeats(s) && c < |s|
    ensures forall i :: 0 <= i < |s| && i != c ==> s[i] != s[c]
  {
  }

  /** Link a record in behind the record at position c. */
  method LinkBehind(tail: Record?, current: Record, x: Record, ghost s: seq<Record>, ghost c: nat)
    returns (ghost r: seq<Record>)
    requires Chain(tail, s) && x !in s && c < |s| && current == s[c]
    modifies x, current
    ensures r == Inserted(s, c + 1, x) && Chain(tail, r)
  {
    r := Inserted(s, c + 1, x);
    InsertedNoRepeats(s, c + 1, x);
    hide NoRepeats;
    assert forall i :: 0 <= i < |s| && i != c ==> s[i] != current by { OnlyAt(s, c); }
    x.prev := current.prev;
    current.prev := x;
    forall i | 0 <= i < |r| ensures r[i].prev == Next(r, i) {
      if i <= c { assert r[i] == s[i]; } else if i > c + 1 { assert r[i] == s[i - 1]; }
    }
  }

  /** Link a record in at the tail. */
  method LinkFirst(tail: Record?, x: Record, ghost s: seq<Record>) returns (ghost r: seq<Record>)
    requires Chain(tail, s) && x !in s
    modifies x
    ensures r == Inserted(s, 0, x) && Chain(x, r)
  {
    r := Inserted(s, 0, x);
    InsertedNoRepeats(s, 0, x);
    x.prev := tail;
  }

  /** Walk from the tail past all records that are later than x. */
  method FindPlace(tail: Record, x: Frag, now: nat, ghost s: seq<Record>) returns (current: Record, ghost c: nat)
    requires Chain(tail, s) && s != []
    ensures c < |s| && current == s[c]
    ensures forall i :: 1 <= i <= c ==> Later(s[i].frag, x, now)
    ensures c + 1 < |s| ==> !Later(s[c + 1].frag, x, now)
  {
    current := tail;
    c := 0;
    while current.prev != null && Later(current.prev.frag, x, now)
      invariant 0 <= c < |s| && current == s[c]
      invariant forall i :: 1 <= i <= c ==> Later(s[i].frag, x, now)
      decreases |s| - c
    {
      current := current.prev;
      c := c + 1;
    }
  }

  lemma InsertedFrags(s: seq<Record>, c: nat, x: Record)
    requires c <= |s|
    ensures Frags(Inserted(s, c, x)) == Frags(s)[..c] + [x.frag] + Frags(s)[c..]
  {
  }

  /** Insert one record into a sorted chain. */
  method InsertRecord(tail: Record?, x: Record, now: nat, ghost s: seq<Record>)
    returns (t: Record?, ghost r: seq<Record>)
    requires Chain(tail, s) && x !in s
    modifies x, s
    ensures Chain(t, r) && multiset(r) == multiset(s) + multiset{x}
    ensures Frags(r) == Insert(x.frag, Frags(s), now)
  {
    hide Later, InsertBehind;
    ghost var before := Frags(s);
    if tail == null || Later(x.frag, tail.frag, now) {
      r := LinkFirst(tail, x, s);
      t := x;
      InsertedFrags(s, 0, x);
      assert before[..0] + [x.frag] + before[0..] == [x.frag] + before;
    } else {
      var current, c := FindPlace(tail, x.frag, now, s);
      InsertAt(x.frag, before, c + 1, now);
      InsertedFrags(s, c + 1, x);
      r := LinkBehind(tail, current, x, s, c);
      t := tail;
    }
  }

  lemma ChainTail(tail: Record?, s: seq<Record>)
    requires Chain(tail, s) && s != []
    ensures Chain(s[0].prev, s[1..])
    ensures tail == s[0] && s[0] !in s[1..]
  {
    var t := s[1..];
    forall i | 0 <= i < |t| ensures t[i].prev == Next(t, i) {
      assert s[i + 1].prev == Next(s, i + 1);
    }
  }

  /** Two chains have no record in common. */
  ghost predicate Separate(s: seq<Record>, t: seq<Record>) { forall x :: x in s ==> x !in t }

  /** One round of the sort: the first unsorted record is inserted into the sorted chain. */
  method SortStep(t: Record?, toInsert: Record, now: nat, ghost r: seq<Record>, ghost rest: seq<Record>)
    returns (t': Record?, next: Record?, ghost r': seq<Record>)
    requires Chain(toInsert, rest) && Chain(t, r) && Separate(r, rest)
    modifies r, toInsert
    ensures Chain(t', r') && Chain(next, rest[1..]) && Separate(r', rest[1..])
    ensures multiset(r') + multiset(rest[1..]) == multiset(r) + multiset(rest)
    ensures Frags(r') == Insert(toInsert.frag, Frags(r), now)
  {
    ChainTail(toInsert, rest);
    ghost var others := rest[1..];
    forall i | 0 <= i < |others| ensures others[i] !in r && others[i] != toInsert {
      assert others[i] in others && others[i] in rest;
    }
    assert toInsert in rest;
    next := toInsert.prev;
    t', r' := InsertRecord(t, toInsert, now, r);
    MoveMember(r, r', rest);
    assert Chain(next, others);
  }

  /** Sort a chain in place. */
  method SortFraglist(tail: Record?, now: nat, ghost s: seq<Record>)
    returns (t: Record?, ghost r: seq<Record>)
    requires Chain(tail, s)
    modifies s
    ensures Chain(t, r) && multiset(r) == multiset(s)
    ensures Frags(r) == Sort(Frags(s), now)
  {
    var toInsert := tail;
    t, r := null, [];
    ghost var rest := s;
    while toInsert != null
      invariant Chain(toInsert, rest) && Chain(t, r) && Separate(r, rest)
      invariant multiset(r) + multiset(rest) == multiset(s)
      invariant SortInto(Frags(r), Frags(rest), now) == Sort(Frags(s), now)
      decreases |rest|
    {
      MembersOfSum(r, rest, s);
      assert toInsert in rest;
      SortIntoStep(r, rest, now);
      t, toInsert, r := SortStep(t, toInsert, now, r, rest);
      rest := rest[1..];
    }
  }

  lemma MembersOfSum(r: seq<Record>, rest: seq<Record>, s: seq<Record>)
    requires multiset(r) + multiset(rest) == multiset(s)
    ensures forall i :: 0 <= i < |r| ==> r[i] in s
    ensures forall i :: 0 <= i < |rest| ==> rest[i] in s
  {
    forall x | x in r || x in rest ensures x in s {
      assert x in multiset(r) || x in multiset(rest);
      assert x in multiset(s);
    }
  }

  lemma SortIntoStep(r: seq<Record>, rest: seq<Record>, now: nat)
    requires rest != []
    ensures SortInto(Frags(r), Frags(rest), now) == SortInto(Insert(rest[0].frag, Frags(r), now), Frags(rest[1..]), now)
  {
    assert Frags(rest)[1..] == Frags(rest[1..]);
  }

  lemma MoveMember(r0: seq<Record>, r: seq<Record>, rest: seq<Record>)
    requires rest != [] && multiset(r) == multiset(r0) + multiset{rest[0]}
    requires Separate(r0, rest) && NoRepeats(rest)
    ensures Separate(r, rest[1..])
    ensures multiset(r) + multiset(rest[1..]) == multiset(r0) + multiset(rest)
  {
    assert rest == [rest[0]] + rest[1..];
    forall y | y in rest[1..] ensures y !in r {
      assert y in rest && y !in r0;
      assert y !in multiset(r0) && y != rest[0];
      assert y !in multiset(r);
    }
  }

  /** Whether the next record belongs to the run at position k. */
  lemma NextInFlow(s: seq<Record>, k: nat, c: nat)
    requires k < |s| && k <= c < RunEnd(Frags(s), k)
    ensures c + 1 == RunEnd(Frags(s), k) <==> c + 1 == |s| || !EqualFlow(s[c].frag, s[c + 1].frag)
  {
    var f, m := Frags(s), RunEnd(Frags(s), k);
    assert EqualFlow(f[k], f[c]);
    if c + 1 < m { assert EqualFlow(f[k], f[c + 1]); }
  }

  /** Work through the run at position k until it proves complete or a discontinuity is found. */
  method ScanRun(t: Record, ghost tail: Record?, ghost s: seq<Record>, ghost k: nat)
    returns (complete: bool, current: Record, ghost c: nat)
    requires Chain(tail, s) && k < |s| && t == s[k]
    ensures k <= c < RunEnd(Frags(s), k) && current == s[c]
    ensures complete == CompleteAt(Frags(s), k, RunEnd(Frags(s), k))
    ensures complete ==> c + 1 == RunEnd(Frags(s), k)
  {
    var finalOff := t.frag.off;
    ghost var f, m := Frags(s), RunEnd(Frags(s), k);
    current, c := t, k;
    while true
      invariant k <= c < m && current == s[c]
      invariant Scan(f, c, m, finalOff) == CompleteAt(f, k, m)
      decreases m - c
    {
      NextInFlow(s, k, c);
      if current.frag.off == finalOff && current.frag.more {
        return false, current, c;
      }
      var prev := current.prev;
      if prev == null || !EqualFlow(current.frag, prev.frag) {
        return current.frag.off == 0, current, c;
      }
      if current.frag.off != prev.frag.off + prev.frag.oct {
        return false, current, c;
      }
      current, c := prev, c + 1;
    }
  }

  /** Walk to the end of the run at position k. */
  method SkipRun(start: Record, ghost tail: Record?, ghost s: seq<Record>, ghost k: nat, ghost c0: nat)
    returns (current: Record)
    requires Chain(tail, s) && k < |s| && k <= c0 < RunEnd(Frags(s), k) && start == s[c0]
    ensures current == s[RunEnd(Frags(s), k) - 1]
  {
    ghost var m := RunEnd(Frags(s), k);
    ghost var c := c0;
    current := start;
    NextInFlow(s, k, c);
    while current.prev != null && EqualFlow(current.frag, current.prev.frag)
      invariant k <= c < m && current == s[c]
      invariant c + 1 == m <==> c + 1 == |s| || !EqualFlow(s[c].frag, s[c + 1].frag)
      decreases m - c
    {
      current, c := current.prev, c + 1;
      NextInFlow(s, k, c);
    }
  }

  /** The chain without the records from k to m. */
  ghost function Rest(s: seq<Record>, k: nat, m: nat): (r: seq<Record>)
    requires k <= m <= |s|
    ensures |r| == |s| - (m - k)
    ensures forall i {:trigger r[i]} :: 0 <= i < |r| ==> r[i] == s[if i < k then i else i + (m - k)]
    ensures Frags(r) == Without(Frags(s), k, m)
  {
    s[..k] + s[m..]
  }

  lemma RestMultiset(s: seq<Record>, k: nat, m: nat)
    requires k <= m <= |s|
    ensures multiset(s[k..m]) + multiset(Rest(s, k, m)) == multiset(s)
  {
    assert s == s[..k] + s[k..m] + s[m..];
  }

  /** All links of a list lead to the next record, except at two places. */
  ghost predicate LinkedBut(s: seq<Record>, a: int, b: int)
    reads s
  {
    forall i {:trigger s[i].prev} :: 0 <= i < |s| && i != a && i != b ==> s[i].prev == Next(s, i)
  }

  lemma SliceChained(s: seq<Record>, k: nat, m: nat)
    requires NoRepeats(s) && k < m <= |s| && LinkedBut(s, k - 1, m - 1) && s[m - 1].prev == null
    ensures Chain(s[k], s[k..m])
  {
    var d := s[k..m];
    forall i | 0 <= i < |d| ensures d[i].prev == Next(d, i) { assert d[i] == s[k + i]; }
  }

  /** The successors in the chain without the records from k to m. */
  lemma NextRest(s: seq<Record>, k: nat, m: nat, i: nat)
    requires k < m <= |s| && i < |Rest(s, k, m)|
    ensures var i' := if i < k then i else i + (m - k);
            Rest(s, k, m)[i] == s[i'] && Next(Rest(s, k, m), i) == Next(s, if i == k - 1 then m - 1 else i')
  {
    hide Without;
  }

  lemma RestNoRepeats(s: seq<Record>, k: nat, m: nat)
    requires NoRepeats(s) && k <= m <= |s|
    ensures NoRepeats(Rest(s, k, m))
  {
    hide Without;
  }

  lemma RestChained(s: seq<Record>, k: nat, m: nat)
    requires NoRepeats(s) && k < m <= |s| && LinkedBut(s, k - 1, m - 1) && (k > 0 ==> s[k - 1].prev == Next(s, m - 1))
    ensures Chain(First(Rest(s, k, m)), Rest(s, k, m))
  {
    RestNoRepeats(s, k, m);
    hide Rest, NoRepeats, Next;
    var r := Rest(s, k, m);
    forall i | 0 <= i < |r| ensures r[i].prev == Next(r, i) { NextRest(s, k, m, i); }
  }

  /** Unlink the records from k to m: the link that led to them now leads behind them. */
  method CutRun(tail: Record?, holder: Record?, t: Record, current: Record, ghost s: seq<Record>, ghost k: nat,
      ghost m: nat)
    returns (remaining: Record?)
    requires Chain(tail, s) && k < m <= |s| && t == s[k] && current == s[m - 1]
    requires holder == if k == 0 then null else s[k - 1]
    modifies s
    ensures Chain(t, s[k..m]) && Chain(remaining, Rest(s, k, m))
  {
    hide Frags, Rest, Without;
    OnlyAt(s, m - 1);
    if k > 0 { OnlyAt(s, k - 1); }
    var prev := current.prev;
    if holder == null {
      remaining := prev;
    } else {
      holder.prev := prev;
      remaining := tail;
    }
    current.prev := null;
    SliceChained(s, k, m);
    RestChained(s, k, m);
  }

  /**
    Find the first complete datagram and cut it out of the chain.  Without one, the chain
    stays as it is.
   */
  method ExtractCompletePacket(tail: Record?, ghost s: seq<Record>)
    returns (datagram: Record?, remaining: Record?, ghost d: seq<Record>, ghost r: seq<Record>)
    requires Chain(tail, s)
    modifies s
    ensures Chain(datagram, d) && Chain(remaining, r)
    ensures multiset(d) + multiset(r) == multiset(s)
    ensures Extract(Frags(s)).NotFound? ==> datagram == null && remaining == tail && d == [] && r == s
    ensures Extract(Frags(s)).Found? ==> datagram != null && Extract(Frags(s)) == Found(Frags(d), Frags(r))
  {
    hide Scan, RunEnd, EqualFlow, CompleteAt, Locate, Frags;
    ghost var f := Frags(s);
    var t, holder: Record? := tail, null;
    ghost var k := 0;
    while t != null
      invariant 0 <= k <= |s| && t == (if k < |s| then s[k] else null)
      invariant holder == if k == 0 then null else s[k - 1]
      invariant Chain(tail, s) && Locate(f, 0) == Locate(f, k)
      decreases |s| - k
    {
      ghost var m := RunEnd(f, k);
      var complete, current, c := ScanRun(t, tail, s, k);
      if complete {
        remaining := CutRun(tail, holder, t, current, s, k, m);
        datagram := t;
        d, r := s[k..m], Rest(s, k, m);
        RestMultiset(s, k, m);
        FoundAt(s, k);
        return;
      }
      LocateNext(f, k);
      current := SkipRun(current, tail, s, k, c);
      t, holder := current.prev, current;
      k := m;
    }
    LocateNone(f);
    datagram, remaining := null, tail;
    d, r := [], s;
  }

  /** What is extracted if the run at position k is the first complete one. */
  lemma FoundAt(s: seq<Record>, k: nat)
    requires k < |s| && CompleteAt(Frags(s), k, RunEnd(Frags(s), k)) && Locate(Frags(s), 0) == Locate(Frags(s), k)
    ensures var m := RunEnd(Frags(s), k);
            k < m <= |s| && Extract(Frags(s)) == Found(Frags(s[k..m]), Frags(Rest(s, k, m)))
  {
    hide RunEnd, CompleteAt;
    FragsSlice(s, k, RunEnd(Frags(s), k));
  }

  lemma LocateNext(f: seq<Frag>, k: nat)
    requires k < |f| && !CompleteAt(f, k, RunEnd(f, k))
    ensures Locate(f, k) == Locate(f, RunEnd(f, k))
  {
    hide RunEnd, CompleteAt;
  }

  lemma LocateNone(f: seq<Frag>)
    ensures Locate(f, |f|).Nowhere?
  {
  }
}
