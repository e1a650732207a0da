/**
  Adding fragments to a bucket, on records in memory and without interference by other threads:
  the retry loop terminates, conserves the fragments, sends only complete datagrams, and leaves
  no complete datagram in the bucket.
 */
module AddFraglist {
  import opened Basics
  import opened IpHeader
  import opened FragOrder
  import opened FragSort
  import opened FragExtract
  import opened FragList
  import opened Glue
  import S = ReassState
  import opened ReassLinks
  import opened ReassCounts

  datatype Fraglist = Fraglist(tail: Record?, part: nat, whole: nat, earliest: nat) {
    /** The same with the address of the tail instead of the record. */
    function Lens(): (w: S.Word) {
      S.Word(if tail == null then None else Some(tail.frag.id), part, whole, earliest)
    }
  }

  const NULL_FRAGLIST := Fraglist(null, 0, IP_OCTET_MAX, S.EARLIEST_MAX)

  /** The shared word of a hash map bucket. */
  class Bucket {
    var fl: Fraglist

    constructor ()
      ensures fl == NULL_FRAGLIST
    {
      fl := NULL_FRAGLIST;
    }

    /** Replace the word if it is still the expected one. */
    method Cas(expected: Fraglist, desired: Fraglist) returns (ok: bool)
      modifies this
      ensures ok <==> old(fl) == expected
      ensures fl == if ok then desired else old(fl)
    {
      ok := fl == expected;
      if ok { fl := desired; }
    }
  }

  /** All fragments of a list of lists. */
  ghost function Flat(outs: seq<seq<Frag>>): (m: multiset<Frag>) {
    if outs == [] then multiset{} else Flat(outs[..|outs| - 1]) + multiset(outs[|outs| - 1])
  }

  /** Each packet is the reassembly of a complete datagram. */
  ghost predicate Sent(out: seq<Packet>, outs: seq<seq<Frag>>) {
    && |out| == |outs|
    && forall i {:trigger outs[i]} :: 0 <= i < |outs| ==>
        Datagram(outs[i]) && AllReceived(outs[i]) && out[i] == Glued(outs[i])
  }

  lemma {:induction false} FlatAppend(a: seq<seq<Frag>>, b: seq<seq<Frag>>)
    ensures Flat(a + b) == Flat(a) + Flat(b)
    decreases |b|
  {
    if b == [] {
      assert a + b == a;
    } else {
      assert (a + b)[..|a + b| - 1] == a + b[..|b| - 1];
      FlatAppend(a, b[..|b| - 1]);
    }
  }

  lemma ReceivedPart(s: seq<Frag>, r: seq<Frag>, rest: multiset<Frag>)
    requires AllReceived(s) && multiset(r) + rest == multiset(s)
    ensures AllReceived(r)
  {
    forall i | 0 <= i < |r| ensures Received(r[i]) {
      assert r[i] in multiset(r) && r[i] in multiset(s);
    }
  }

  /** The list without position k. */
  ghost function Drop(t: seq<Record>, k: nat): (r: seq<Record>)
    requires k < |t|
  {
    t[..k] + t[k + 1..]
  }

  lemma DropMultiset(t: seq<Record>, k: nat)
    requires k < |t|
    ensures multiset(t) == multiset(Drop(t, k)) + multiset{t[k]}
    ensures multiset(Frags(t)) == multiset(Frags(Drop(t, k))) + multiset{t[k].frag}
  {
    assert t == t[..k] + [t[k]] + t[k + 1..];
    var f := Frags(t);
    assert f == f[..k] + [f[k]] + f[k + 1..];
    assert Frags(Drop(t, k)) == f[..k] + f[k + 1..];
  }

  lemma {:induction false} FragsMultiset(s: seq<Record>, t: seq<Record>)
    requires multiset(s) == multiset(t)
    ensures multiset(Frags(s)) == multiset(Frags(t))
    decreases |s|
  {
    hide Drop, Frags;
    if s == [] {
      assert |multiset(t)| == 0;
      assert t == [];
    } else {
      assert s[0] in multiset(t);
      var k :| 0 <= k < |t| && t[k] == s[0];
      DropMultiset(s, 0);
      DropMultiset(t, k);
      assert |Drop(s, 0)| == |s| - 1 by { assert |multiset(s)| == |multiset(Drop(s, 0))| + 1; }
      assert multiset(Drop(s, 0)) == multiset(s) - multiset{s[0]};
      assert multiset(Drop(t, k)) == multiset(t) - multiset{s[0]};
      FragsMultiset(Drop(s, 0), Drop(t, k));
    }
  }

  lemma FragsAppend(s: seq<Record>, t: seq<Record>)
    ensures Frags(s + t) == Frags(s) + Frags(t)
  {
  }

  lemma FragsSum(d: seq<Record>, r: seq<Record>, s: seq<Record>)
    requires multiset(d) + multiset(r) == multiset(s)
    ensures multiset(Frags(d)) + multiset(Frags(r)) == multiset(Frags(s))
  {
    FragsMultiset(d + r, s);
    FragsAppend(d, r);
  }

  lemma SentAppend(out: seq<Packet>, outs: seq<seq<Frag>>, p: Packet, d: seq<Frag>)
    requires Sent(out, outs) && Datagram(d) && AllReceived(d) && p == Glued(d)
    ensures Sent(out + [p], outs + [d]) && Flat(outs + [d]) == Flat(outs) + multiset(d)
  {
    hide Datagram, Glued, Received;
    assert (outs + [d])[..|outs|] == outs;
  }

  /** Cut one complete datagram out of a sorted chain, if there is one, and glue it together. */
  method SendOne(tail: Record?, ghost s: seq<Record>)
    returns (found: bool, p: Packet, rest: Record?, ghost d: seq<Frag>, ghost r: seq<Record>)
    requires Chain(tail, s) && AllReceived(Frags(s))
    modifies s
    ensures Chain(rest, r) && AllReceived(Frags(r)) && forall i :: 0 <= i < |r| ==> r[i] in s
    ensures found <==> Extract(Frags(s)).Found?
    ensures !found ==> rest == tail && r == s
    ensures found ==> |r| < |s| && multiset(d) + multiset(Frags(r)) == multiset(Frags(s))
    ensures found ==> Datagram(d) && AllReceived(d) && p == Glued(d)
  {
    hide Received, Datagram, Glued, Extract, FragList.First;
    ghost var f := Frags(s);
    var complete, remaining, c, r' := ExtractCompletePacket(tail, s);
    rest, r, d, found := remaining, r', Frags(c), complete != null;
    MembersOfSum(c, r, s);
    if found {
      FragsSum(c, r, s);
      ExtractConserves(f);
      ReceivedPart(f, d, multiset(Frags(r)));
      ReceivedPart(f, Frags(r), multiset(d));
      OneFlow(c);
      p := SendPacket(complete, c);
    } else {
      p := seq(20, i => 0);
    }
  }

  lemma NothingSent(s: seq<Frag>)
    ensures Sent([], []) && Flat([]) + multiset(s) == multiset(s)
  {
  }

  lemma MoveOut(a: multiset<Frag>, d: multiset<Frag>, r': multiset<Frag>, r: multiset<Frag>, all: multiset<Frag>)
    requires a + r == all && d + r' == r
    ensures (a + d) + r' == all
  {
  }

  /** Cut all complete datagrams out of a sorted chain and send them. */
  method SendComplete(tail: Record?, ghost s: seq<Record>)
    returns (remaining: Record?, out: seq<Packet>, ghost outs: seq<seq<Frag>>, ghost r: seq<Record>)
    requires Chain(tail, s) && AllReceived(Frags(s))
    modifies s
    ensures Chain(remaining, r) && AllReceived(Frags(r)) && forall i :: 0 <= i < |r| ==> r[i] in s
    ensures Sent(out, outs) && Flat(outs) + multiset(Frags(r)) == multiset(Frags(s))
    ensures Extract(Frags(r)).NotFound? && (outs == [] ==> r == s) && (outs != [] ==> |r| < |s|)
  {
    hide AllReceived, Datagram, Glued, Extract, Chain, Frags, Flat, Sent;
    remaining, out, outs, r := tail, [], [], s;
    NothingSent(Frags(s));
    while true
      invariant Chain(remaining, r) && forall i :: 0 <= i < |r| ==> r[i] in s
      invariant Sent(out, outs) && Flat(outs) + multiset(Frags(r)) == multiset(Frags(s))
      invariant AllReceived(Frags(r)) && (outs == [] ==> r == s) && (outs != [] ==> |r| < |s|)
      decreases |r|
    {
      var found, p, rest, d, r' := SendOne(remaining, r);
      if !found { break; }
      SentAppend(out, outs, p, d);
      MoveOut(Flat(outs), multiset(d), multiset(Frags(r')), multiset(Frags(r)), multiset(Frags(s)));
      out, outs := out + [p], outs + [d];
      remaining, r := rest, r';
    }
  }

  lemma OneFlow(d: seq<Record>)
    requires Datagram(Frags(d))
    ensures d != [] && forall i :: 0 <= i < |d| ==> EqualFlow(d[0].frag, d[i].frag)
  {
    forall i | 0 <= i < |d| ensures EqualFlow(d[0].frag, d[i].frag) {
      assert EqualFlow(Frags(d)[0], Frags(d)[i]);
    }
  }

  /** Link the head of a private chain to the tail of the bucket's chain. */
  method JoinChains(tail: Record, head: Record, other: Record?, ghost s: seq<Record>, ghost u: seq<Record>)
    requires Chain(tail, s) && Chain(other, u) && Separate(s, u) && s != [] && head == s[|s| - 1]
    modifies head
    ensures Chain(tail, s + u)
  {
    head.prev := other;
    ghost var r := s + u;
    forall i, j | 0 <= i < j < |r| ensures r[i] != r[j] {
      if i < |s| <= j { assert r[i] in s && r[j] in u; }
    }
    forall i | 0 <= i < |r| ensures r[i].prev == FragList.Next(r, i) {
      if i < |s| { assert r[i] == s[i]; } else { assert r[i] == u[i - |s|] && u[i - |s|] in u; }
    }
  }

  /** Count all fragments of a chain into a summary, and find its head. */
  method RecountChain(tail: Record, w: Fraglist, now: nat, ghost s: seq<Record>) returns (v: Fraglist, head: Record)
    requires Chain(tail, s) && s != [] && w.tail == tail
    ensures v.tail == tail && v.Lens() == S.Recount(w.Lens(), Frags(s), now)
    ensures head == s[|s| - 1]
  {
    hide Earliest;
    v, head := w, tail;
    var current: Record? := tail;
    ghost var i := 0;
    while current != null
      invariant 0 <= i <= |s| && current == (if i < |s| then s[i] else null)
      invariant i > 0 ==> head == s[i - 1]
      invariant v.tail == tail && S.Recount(v.Lens(), Frags(s)[i..], now) == S.Recount(w.Lens(), Frags(s), now)
      decreases |s| - i
    {
      ghost var c := S.Count(v.Lens(), current.frag, now);
      assert Frags(s)[i..][1..] == Frags(s)[i + 1..];
      v := Fraglist(tail, S.Min(IP_OCTET_MAX, v.part + current.frag.oct), S.Min(v.whole, current.frag.Whole()),
                    Earliest(v.earliest, current.frag.arrival, now));
      assert v.Lens() == c;
      head := current;
      current := current.prev;
      i := i + 1;
    }
  }

  /** The last record of a chain. */
  method FindHead(tail: Record, ghost s: seq<Record>) returns (head: Record)
    requires Chain(tail, s) && s != []
    ensures head == s[|s| - 1]
  {
    head := tail;
    ghost var i := 0;
    while head.prev != null
      invariant 0 <= i < |s| && head == s[i]
      decreases |s| - i
    {
      head := head.prev;
      i := i + 1;
    }
  }

  lemma TakeOut(s: seq<Frag>, x: Frag) returns (s': seq<Frag>)
    requires x in s
    ensures multiset(s') == multiset(s) - multiset{x} && SumOct(s) == SumOct(s') + x.oct
  {
    var k :| 0 <= k < |s| && s[k] == x;
    s' := Without(s, k, k + 1);
    WithoutMultiset(s, k, k + 1);
    SumOctWithout(s, k, k + 1);
    assert s[k..k + 1] == [x];
  }

  lemma {:induction false} SumOctPart(r: seq<Frag>, s: seq<Frag>, rest: multiset<Frag>)
    requires multiset(r) + rest == multiset(s)
    ensures SumOct(r) <= SumOct(s)
    decreases |r|
  {
    if r != [] {
      var x := r[0];
      assert r == [x] + r[1..];
      assert x in multiset(r) && x in multiset(s);
      var s' := TakeOut(s, x);
      assert multiset(r[1..]) == multiset(r) - multiset{x};
      SumOctPart(r[1..], s', rest);
    }
  }

  lemma SummaryPart(w: S.Word, s: seq<Frag>, r: seq<Frag>, rest: multiset<Frag>)
    requires Summary(w, s) && multiset(r) + rest == multiset(s)
    ensures Summary(w, r)
  {
    hide SumOct;
    SumOctPart(r, s, rest);
    forall i | 0 <= i < |r| ensures w.whole <= r[i].Whole() {
      assert r[i] in multiset(r) && r[i] in multiset(s);
      assert r[i] in s;
    }
  }

  /** Sort a chain and send what is complete. */
  method SortAndSend(tail: Record?, now: nat, ghost s: seq<Record>)
    returns (remaining: Record?, out: seq<Packet>, ghost outs: seq<seq<Frag>>, ghost r: seq<Record>)
    requires Chain(tail, s) && AllReceived(Frags(s))
    modifies s
    ensures Chain(remaining, r) && AllReceived(Frags(r)) && forall i :: 0 <= i < |r| ==> r[i] in s
    ensures Sent(out, outs) && Flat(outs) + multiset(Frags(r)) == multiset(Frags(s))
    ensures outs == [] ==> Extract(Frags(r)).NotFound? && Frags(r) == Sort(Frags(s), now)
    ensures outs != [] ==> |r| < |s|
  {
    hide Received, Extract, Sort, Frags, Sent, Flat;
    var t, sorted := SortFraglist(tail, now, s);
    FragsMultiset(sorted, s);
    ReceivedPart(Frags(s), Frags(sorted), multiset{});
    MembersOfSum(sorted, [], s);
    assert |sorted| == |s| by { assert |multiset(sorted)| == |multiset(s)|; }
    remaining, out, outs, r := SendComplete(t, sorted);
  }

  /**
    The summary and the head of what remains; the lengths are counted again, on top of the old ones,
    if something was sent.
   */
  method WriteBack(newfl: Fraglist, remaining: Record, changed: bool, now: nat, ghost r: seq<Record>)
    returns (update: Fraglist, head: Record)
    requires Chain(remaining, r) && r != []
    ensures update.tail == remaining && head == r[|r| - 1]
    ensures Summary(newfl.Lens(), Frags(r)) ==> Summary(update.Lens(), Frags(r))
    ensures update.Lens() ==
        if changed then S.Recount(Fraglist(remaining, newfl.part, newfl.whole, now).Lens(), Frags(r), now)
        else Fraglist(remaining, newfl.part, newfl.whole, newfl.earliest).Lens()
  {
    hide Frags, Earliest, Summary, S.Recount;
    ghost var w := newfl.Lens();
    update := Fraglist(remaining, newfl.part, newfl.whole, if changed then now else newfl.earliest);
    if Summary(w, Frags(r)) {
      SummaryWord(w, update.Lens(), Frags(r));
      SummaryRecount(update.Lens(), Frags(r), now, Frags(r));
    }
    if changed {
      update, head := RecountChain(remaining, update, now, r);
    } else {
      head := FindHead(remaining, r);
    }
  }

  lemma SummaryWord(w: S.Word, v: S.Word, s: seq<Frag>)
    requires Summary(w, s) && v.part == w.part && v.whole == w.whole
    ensures Summary(v, s)
  {
  }

  /** A bucket and a private list beside it, in memory. */
  ghost predicate Ready(fl: Fraglist, frags: Fraglist, head: Record, list: seq<Record>, chain: seq<Record>)
    reads list, chain
  {
    && Chain(fl.tail, chain) && Chain(frags.tail, list) && Separate(list, chain)
    && list != [] && head == list[|list| - 1]
    && AllReceived(Frags(list)) && AllReceived(Frags(chain))
  }

  /** The summaries are right, and fragments do not overlap and have ordered flows. */
  ghost predicate Orderly(fl: Fraglist, frags: Fraglist, list: seq<Frag>, chain: seq<Frag>, u: set<Frag>) {
    && Summary(frags.Lens(), list) && Summary(fl.Lens(), chain)
    && Sane(u) && FlowsOrdered(u) && Within(list + chain, u) && Distinct(list + chain)
  }

  function Extended(oldfl: Fraglist, frags: Fraglist, now: nat): (newfl: Fraglist)
    ensures newfl.tail == frags.tail && newfl.Lens() == S.NewWord(oldfl.Lens(), frags.Lens(), now)
  {
    Fraglist(frags.tail, S.Min(IP_OCTET_MAX, oldfl.part + frags.part), S.Min(oldfl.whole, frags.whole),
             if oldfl.tail == null then frags.earliest else Earliest(oldfl.earliest, frags.earliest, now))
  }

  /** What is known about a bucket and a private list if all fragments are orderly. */
  ghost predicate Tidy(fl: Fraglist, frags: Fraglist, list: seq<Frag>, chain: seq<Frag>, u: set<Frag>, dont: bool) {
    Orderly(fl, frags, list, chain, u) && (dont ==> !HasDatagram(list))
  }

  /** Publishing is right: with the lengths as they are, or after a vain attempt, nothing is complete. */
  lemma PublishComplete(fl: Fraglist, frags: Fraglist, now: nat, list: seq<Frag>, chain: seq<Frag>, u: set<Frag>,
      dont: bool)
    requires Tidy(fl, frags, list, chain, u, dont)
    requires var newfl := Extended(fl, frags, now); newfl.part < newfl.whole || (dont && chain == [])
    ensures Summary(Extended(fl, frags, now).Lens(), list + chain) && !HasDatagram(list + chain)
  {
    hide HasDatagram, Earliest, Summary;
    SummaryAppend(fl.Lens(), frags.Lens(), now, list, chain);
    if dont && chain == [] {
      assert list + chain == list;
    } else {
      SummaryRulesOut(Extended(fl, frags, now).Lens(), list + chain);
    }
  }

  /** What remains of an orderly list after an attempt is orderly; if nothing was sent, nothing is complete. */
  lemma AttemptOrderly(s: seq<Frag>, r: seq<Frag>, outs: multiset<Frag>, u: set<Frag>, now: nat)
    requires Sane(u) && FlowsOrdered(u) && Within(s, u) && Distinct(s) && outs + multiset(r) == multiset(s)
    ensures Within(r, u) && Distinct(r)
    ensures r == Sort(s, now) && Extract(r).NotFound? ==> !HasDatagram(r)
  {
    hide HasDatagram, Extract, Sort, Sane, FlowsOrdered;
    forall x | x in r ensures x in u { assert x in multiset(r) && x in multiset(s); }
    DistinctByCount(s);
    DistinctByCount(r);
    forall x ensures multiset(r)[x] <= 1 {
      assert multiset(s)[x] == outs[x] + multiset(r)[x];
    }
    if r == Sort(s, now) && Extract(r).NotFound? {
      SortSorts(s, u, now);
      ExtractExact(r, u, now);
    }
  }

  lemma ChainTailOf(tail: Record?, s: seq<Record>)
    requires Chain(tail, s)
    ensures tail == null <==> s == []
    ensures s != [] ==> tail == s[0]
  {
  }

  lemma EmptyChain()
    ensures Chain(null, []) && AllReceived(Frags([])) && multiset(Frags([])) == multiset{}
    ensures Sent([], []) && Flat([]) == multiset{}
    ensures Summary(NULL_FRAGLIST.Lens(), Frags([])) && !HasDatagram(Frags([]))
  {
    assert Frags([]) == [];
    forall d | Datagram(d) ensures !Included(d, []) { assert d[0] in d; }
  }

  /** The summary of a list covers what remains of it. */
  lemma RemainderSummary(w: S.Word, f: seq<Frag>, r: seq<Frag>, outs: multiset<Frag>)
    requires outs + multiset(r) == multiset(f)
    ensures Summary(w, f) ==> Summary(w, r)
  {
    hide Summary;
    if Summary(w, f) { SummaryPart(w, f, r, outs); }
  }

  /** An attempt at reassembly on a list that was taken from its bucket. */
  method Attempt(newfl: Fraglist, now: nat, ghost s: seq<Record>)
    returns (update: Fraglist, head: Record?, out: seq<Packet>, ghost outs: seq<seq<Frag>>, ghost r: seq<Record>)
    requires Chain(newfl.tail, s) && AllReceived(Frags(s))
    modifies s
    ensures Chain(update.tail, r) && AllReceived(Frags(r)) && forall i :: 0 <= i < |r| ==> r[i] in s
    ensures r != [] ==> head == r[|r| - 1]
    ensures Sent(out, outs) && Flat(outs) + multiset(Frags(r)) == multiset(Frags(s))
    ensures |out| == |outs| && |r| <= |s| &&
        (outs == [] ==> Extract(Frags(r)).NotFound? && Frags(r) == Sort(Frags(s), now))
    ensures outs != [] ==> |r| < |s|
    ensures r != [] && Summary(newfl.Lens(), Frags(s)) ==> Summary(update.Lens(), Frags(r))
    ensures r != [] && outs == [] ==> update.part == newfl.part && update.whole == newfl.whole
  {
    hide Received, Extract, Sort, Frags, Summary, Flat, Chain, Datagram, Glued;
    var remaining;
    remaining, out, outs, r := SortAndSend(newfl.tail, now, s);
    RemainderSummary(newfl.Lens(), Frags(s), Frags(r), Flat(outs));
    ChainTailOf(remaining, r);
    if outs == [] {
      SortPermutes(Frags(s), now);
      PermutedMembers(Frags(s), Frags(r));
    }
    if remaining != null {
      update, head := WriteBack(newfl, remaining, out != [], now, r);
    } else {
      update, head := NULL_FRAGLIST, null;
    }
  }

  lemma AttemptTidy(fl: Fraglist, frags: Fraglist, update: Fraglist, list: seq<Frag>, chain: seq<Frag>, u: set<Frag>,
      dont: bool,
                    now: nat, r: seq<Frag>, outs: multiset<Frag>)
    requires Tidy(fl, frags, list, chain, u, dont) && outs + multiset(r) == multiset(list + chain)
    requires Summary(Extended(fl, frags, now).Lens(), list + chain) ==> Summary(update.Lens(), r)
    ensures Tidy(NULL_FRAGLIST, update, r, [], u, false)
    ensures r == Sort(list + chain, now) && Extract(r).NotFound? ==> Tidy(NULL_FRAGLIST, update, r, [], u, true)
  {
    hide HasDatagram, Extract, Sort, Sane, FlowsOrdered, Summary, Extended, Within, Distinct;
    EmptyChain();
    assert Frags([]) == [] && r + [] == r;
    SummaryAppend(fl.Lens(), frags.Lens(), now, list, chain);
    AttemptOrderly(list + chain, r, outs, u, now);
  }

  /** The private list in front of the bucket's list. */
  method Extend(bucket: Bucket, frags: Fraglist, head: Record, now: nat, ghost list: seq<Record>,
      ghost chain: seq<Record>)
    returns (newfl: Fraglist)
    requires Ready(bucket.fl, frags, head, list, chain)
    modifies head
    ensures newfl == Extended(bucket.fl, frags, now) && Chain(newfl.tail, list + chain)
    ensures AllReceived(Frags(list + chain)) && Frags(list + chain) == Frags(list) + Frags(chain)
    ensures bucket.fl.tail == null <==> chain == []
  {
    hide Received, Frags, Chain;
    ChainTailOf(frags.tail, list);
    ChainTailOf(bucket.fl.tail, chain);
    JoinChains(frags.tail, head, bucket.fl.tail, list, chain);
    FragsAppend(list, chain);
    newfl := Extended(bucket.fl, frags, now);
  }

  /** The lengths of a bucket and of a private list are those of their fragments. */
  ghost predicate Counted(fl: Fraglist, frags: Fraglist, list: seq<Frag>, chain: seq<Frag>) {
    Exact(frags.Lens(), list) && Exact(fl.Lens(), chain)
  }

  /** An attempt in vain leaves the lengths right. */
  lemma AttemptCounted(fl: Fraglist, frags: Fraglist, update: Fraglist, now: nat, list: seq<Frag>, chain: seq<Frag>)
    requires Counted(fl, frags, list, chain)
    requires var w := Extended(fl, frags, now); update.part == w.part && update.whole == w.whole
    ensures Counted(NULL_FRAGLIST, update, Sort(list + chain, now), [])
  {
    ExactAppend(fl.Lens(), frags.Lens(), now, list, chain);
    ExactSort(Extended(fl, frags, now).Lens(), list + chain, now);
    hide Sort;
  }

  lemma PublishCounted(fl: Fraglist, frags: Fraglist, now: nat, list: seq<Frag>, chain: seq<Frag>)
    requires Counted(fl, frags, list, chain)
    ensures Exact(Extended(fl, frags, now).Lens(), list + chain)
  {
    ExactAppend(fl.Lens(), frags.Lens(), now, list, chain);
  }

  lemma NoneCounted()
    ensures Exact(NULL_FRAGLIST.Lens(), Frags([]))
  {
    assert Frags([]) == [];
  }

  /** A round that takes the list of the bucket and tries to reassemble it. */
  method TakeRound(bucket: Bucket, newfl: Fraglist, frags: Fraglist, now: nat,
                   ghost list: seq<Record>, ghost chain: seq<Record>, ghost u: set<Frag>, ghost dont: bool)
    returns (frags': Fraglist, head': Record?, dont': bool, out: seq<Packet>,
             ghost outs: seq<seq<Frag>>, ghost r: seq<Record>)
    requires newfl == Extended(bucket.fl, frags, now) && Chain(newfl.tail, list + chain)
    requires AllReceived(Frags(list + chain)) && Frags(list + chain) == Frags(list) + Frags(chain)
    modifies bucket, list, chain
    ensures bucket.fl == NULL_FRAGLIST
    ensures Chain(frags'.tail, r) && AllReceived(Frags(r)) && forall i :: 0 <= i < |r| ==> r[i] in list || r[i] in chain
    ensures r != [] ==> head' == r[|r| - 1]
    ensures Sent(out, outs) && Flat(outs) + multiset(Frags(r)) == multiset(Frags(list)) + multiset(Frags(chain))
    ensures |r| < |list| + |chain| || (|r| == |list| + |chain| && dont')
    ensures r != [] && Tidy(old(bucket.fl), frags, Frags(list), Frags(chain), u, dont) ==>
        Tidy(bucket.fl, frags', Frags(r), [], u, dont')
    ensures r != [] && outs == [] && Counted(old(bucket.fl), frags, Frags(list), Frags(chain)) ==>
        Counted(bucket.fl, frags', Frags(r), [])
  {
    hide Received, Summary, Extract, Sort, Sent, Frags, Extended, Chain, Flat, Tidy, Counted;
    ghost var oldfl := bucket.fl;
    var ok := bucket.Cas(bucket.fl, NULL_FRAGLIST);
    ghost var s := list + chain;
    frags', head', out, outs, r := Attempt(newfl, now, s);
    dont' := out == [];
    if r != [] && Tidy(oldfl, frags, Frags(list), Frags(chain), u, dont) {
      AttemptTidy(oldfl, frags, frags', Frags(list), Frags(chain), u, dont, now, Frags(r), Flat(outs));
    }
    if r != [] && outs == [] && Counted(oldfl, frags, Frags(list), Frags(chain)) {
      AttemptCounted(oldfl, frags, frags', now, Frags(list), Frags(chain));
    }
  }

  /** Sent, private and published fragments are together all fragments. */
  ghost predicate Conserves(outs: seq<seq<Frag>>, list: seq<Record>, chain: seq<Record>, all: multiset<Frag>) {
    Flat(outs) + multiset(Frags(list)) + multiset(Frags(chain)) == all
  }

  lemma ConservesInit(list: seq<Record>, chain: seq<Record>)
    ensures Conserves([], list, chain, multiset(Frags(list)) + multiset(Frags(chain)))
  {
  }

  lemma ConservesPublish(outs: seq<seq<Frag>>, list: seq<Record>, chain: seq<Record>, all: multiset<Frag>)
    requires Conserves(outs, list, chain, all)
    ensures Conserves(outs, [], list + chain, all)
  {
    FragsAppend(list, chain);
    EmptyChain();
  }

  lemma ConservesSend(outs: seq<seq<Frag>>, list: seq<Record>, chain: seq<Record>, all: multiset<Frag>,
                      sent: seq<seq<Frag>>, r: seq<Record>)
    requires Conserves(outs, list, chain, all)
    requires Flat(sent) + multiset(Frags(r)) == multiset(Frags(list)) + multiset(Frags(chain))
    ensures Conserves(outs + sent, r, [], all)
  {
    hide Flat, Frags;
    FlatAppend(outs, sent);
    EmptyChain();
    Regroup(Flat(outs), Flat(sent), multiset(Frags(r)), multiset(Frags(list)), multiset(Frags(chain)));
  }

  lemma Regroup(a: multiset<Frag>, b: multiset<Frag>, c: multiset<Frag>, d: multiset<Frag>, e: multiset<Frag>)
    requires b + c == d + e
    ensures (a + b) + c + multiset{} == a + d + e
  {
    forall x ensures ((a + b) + c + multiset{})[x] == (a + d + e)[x] {
      assert (b + c)[x] == (d + e)[x];
    }
  }

  lemma ReadyHead(fl: Fraglist, frags: Fraglist, head: Record, list: seq<Record>, chain: seq<Record>)
    requires Ready(fl, frags, head, list, chain)
    ensures list != [] && head == list[|list| - 1]
  {
  }

  /**
    Add a private list to a bucket.  The flag dont suppresses the attempt at reassembly after
    one that found nothing; the loop ends because every other attempt has taken fragments out.
   */
  method AddFraglistToFraglist(bucket: Bucket, frags0: Fraglist, head0: Record, now: nat, dont0: bool,
                               ghost list0: seq<Record>, ghost chain0: seq<Record>, ghost u: set<Frag>)
    returns (out: seq<Packet>, ghost outs: seq<seq<Frag>>, ghost chain: seq<Record>)
    requires Ready(bucket.fl, frags0, head0, list0, chain0)
    modifies bucket, list0, chain0
    ensures Chain(bucket.fl.tail, chain) && Sent(out, outs)
    ensures Conserves(outs, [], chain, multiset(Frags(list0)) + multiset(Frags(chain0)))
    ensures Tidy(old(bucket.fl), frags0, Frags(list0), Frags(chain0), u, dont0)
            ==> Summary(bucket.fl.Lens(), Frags(chain)) && !HasDatagram(Frags(chain))
    ensures outs == [] && Counted(old(bucket.fl), frags0, Frags(list0), Frags(chain0))
            ==> Exact(bucket.fl.Lens(), Frags(chain))
  {
    hide Received, HasDatagram, Summary, Tidy, Ready, AllReceived, Extract, Sort, Sent, Frags, Extended, Chain, Flat,
        Conserves, Counted, Exact;
    EmptyChain();
    NoneCounted();
    var frags, dont := frags0, dont0;
    var head: Record := head0;
    ghost var list := list0;
    chain, out, outs := chain0, [], [];
    ConservesInit(list, chain);
    ghost var tidy := Tidy(bucket.fl, frags, Frags(list), Frags(chain), u, dont);
    ghost var counted := Counted(bucket.fl, frags, Frags(list), Frags(chain));
    ghost var all := multiset(Frags(list0)) + multiset(Frags(chain0));
    ReadyHead(bucket.fl, frags, head, list, chain);
    while true
      invariant Ready(bucket.fl, frags, head, list, chain)
      invariant forall i :: 0 <= i < |list| ==> list[i] in list0 || list[i] in chain0
      invariant chain == chain0 || chain == []
      invariant Sent(out, outs)
      invariant list != [] && head == list[|list| - 1] && Conserves(outs, list, chain, all)
      invariant tidy ==> Tidy(bucket.fl, frags, Frags(list), Frags(chain), u, dont)
      invariant counted && outs == [] ==> Counted(bucket.fl, frags, Frags(list), Frags(chain))
      decreases |list| + |chain|, if dont && chain == [] then 0 else 1
    {
      var oldfl := bucket.fl;
      var newfl := Extend(bucket, frags, head, now, list, chain);
      ghost var wasDont := dont;
      dont := dont && oldfl.tail == null;
      if newfl.part < newfl.whole || dont {
        var ok := bucket.Cas(oldfl, newfl);
        assert Frags(chain) == [] <==> chain == [];
        if tidy { PublishComplete(oldfl, frags, now, Frags(list), Frags(chain), u, wasDont); }
        if counted && outs == [] { PublishCounted(oldfl, frags, now, Frags(list), Frags(chain)); }
        ConservesPublish(outs, list, chain, all);
        chain := list + chain;
        return;
      }
      var update, last, dont', sent, sentOuts, r := TakeRound(bucket, newfl, frags, now, list, chain, u, wasDont);
      ChainTailOf(update.tail, r);
      SentJoin(out, outs, sent, sentOuts);
      ConservesSend(outs, list, chain, all, sentOuts, r);
      out, outs := out + sent, outs + sentOuts;
      chain := [];
      if update.tail == null {
        return;
      }
      frags, head, dont, list := update, last, dont', r;
      ReadyAgain(frags, head, list);
    }
  }

  lemma ReadyAgain(frags: Fraglist, head: Record, list: seq<Record>)
    requires Chain(frags.tail, list) && AllReceived(Frags(list)) && list != [] && head == list[|list| - 1]
    ensures Ready(NULL_FRAGLIST, frags, head, list, [])
  {
    EmptyChain();
  }

  lemma SentJoin(a: seq<Packet>, ads: seq<seq<Frag>>, b: seq<Packet>, bds: seq<seq<Frag>>)
    requires Sent(a, ads) && Sent(b, bds)
    ensures Sent(a + b, ads + bds) && Flat(ads + bds) == Flat(ads) + Flat(bds)
  {
    hide Glued, Received, Flat;
    FlatAppend(ads, bds);
    forall i | 0 <= i < |ads + bds|
      ensures Datagram((ads + bds)[i]) && AllReceived((ads + bds)[i]) && (a + b)[i] == Glued((ads + bds)[i])
    {
      if i < |ads| { assert Datagram(ads[i]); } else { assert Datagram(bds[i - |ads|]); }
    }
  }
}
