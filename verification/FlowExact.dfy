/**
  How far sorting and extraction can be relied on: they find every complete datagram exactly
  when all flows of the list are ordered field by field.  Two flows that are not, such as two
  whose addresses and identifications differ in opposite directions, can hide a datagram.
 */
module FlowExact {
  import opened IpHeader
  import opened FragOrder
  import opened FragSort
  import opened FragExtract
  import opened Fragment
  import opened Glue
  import opened ReassRoundTrip

  /** A fragment of an unordered flow gets between two fragments that make up a datagram. */
  lemma SortSeparates(a: Frag, b: Frag, c: Frag, now: nat)
    requires EqualFlow(a, c) && !Ordered(a.flow, b.flow)
    ensures Sort([a, b, c], now) == [c, b, a]
  {
    hide Earliest;
    assert LaterFlow(a.flow, b.flow) && LaterFlow(b.flow, a.flow);
    assert Insert(a, [], now) == [a];
    assert Insert(b, [a], now) == [b, a];
    assert Insert(c, [b, a], now) == [c, b, a];
    assert [a, b, c][1..] == [b, c] && [b, c][1..] == [c];
    assert SortInto([b, a], [c], now) == [c, b, a];
    assert SortInto([a], [b, c], now) == SortInto([b, a], [c], now);
  }

  /** Two fragments of a datagram with one of an unordered flow between them are not recognised. */
  lemma Missed(a: Frag, b: Frag, c: Frag, now: nat)
    requires EqualFlow(a, c) && !Ordered(a.flow, b.flow)
    requires a.more && a.off == 0 && !c.more && c.off == a.Limit() && c.off > 0 && b.more
    ensures HasDatagram([a, b, c]) && Extract(Sort([a, b, c], now)).NotFound?
  {
    var d, s, r := [c, a], [a, b, c], [c, b, a];
    assert Joined(d, 0);
    assert Datagram(d) && Included(d, s) by { assert c in s && a in s; }
    SortSeparates(a, b, c, now);
    assert r[0] == c && r[1] == b && r[2] == a;
    assert RunEnd(r, 0) == 1 && RunEnd(r, 1) == 2 && RunEnd(r, 2) == 3;
    assert !CompleteAt(r, 0, 1) && !CompleteAt(r, 1, 2) && !CompleteAt(r, 2, 3);
    assert Locate(r, 3) == Nowhere;
    assert Locate(r, 2) == Nowhere;
    assert Locate(r, 1) == Nowhere;
  }

  /** Such fragments come from any datagram of two fragments and any oversized datagram of an unordered flow. */
  lemma UnorderedMissed(p: Packet, q: Packet, d: seq<Frag>, e: seq<Frag>, now: nat)
    requires FragmentsOf(d, p) && MTU < Body(p) <= 2 * MTU
    requires FragmentsOf(e, q) && Body(q) > MTU
    requires !Ordered(FlowOf(p), FlowOf(q))
    ensures |d| == 2 && |e| > 1
    ensures var s := [d[1], e[1], d[0]]; HasDatagram(s) && Extract(Sort(s, now)).NotFound?
  {
    hide Ordered, FlowOf, HasDatagram, Extract, Sort;
    FragmentsCount(e, q);
    assert |d| == 2;
    PieceRecord(d, p, 0);
    PieceRecord(d, p, 1);
    PieceRecord(e, q, 1);
    Missed(d[1], e[1], d[0], now);
  }

  /** The fragments of a list do not overlap and belong to the given flows. */
  ghost predicate SaneList(s: seq<Frag>, fs: set<Flow>) {
    Sane(Elems(s)) && Distinct(s) && forall x :: x in s ==> x.flow in fs
  }

  /** Sorting and extracting finds a datagram exactly when there is one. */
  ghost predicate Exact(s: seq<Frag>, now: nat) { Extract(Sort(s, now)).Found? <==> HasDatagram(s) }

  lemma OrderedExact(s: seq<Frag>, fs: set<Flow>, now: nat)
    requires SaneList(s, fs) && AllOrdered(fs)
    ensures Exact(s, now)
  {
    hide Ordered, HasDatagram, Extract, Sort;
    SortExtractExact(s, Elems(s), now);
  }

  lemma UnorderedInexact(fs: set<Flow>, f: Flow, g: Flow, now: nat) returns (s: seq<Frag>)
    requires f in fs && g in fs && !Ordered(f, g)
    ensures SaneList(s, fs) && !Exact(s, now)
  {
    hide HasDatagram, Extract, Sort;
    var pkt: Packet := seq(20, i => 0);
    var a := Frag(0, pkt, 0, f, 0, 8, 1, true);
    var b := Frag(1, pkt, 0, g, 0, 8, 1, true);
    var c := Frag(2, pkt, 0, f, 1, 8, 1, false);
    s := [a, b, c];
    assert Elems(s) == {a, b, c};
    Missed(a, b, c, now);
  }

  /** Reassembly of the flows in a set is complete, for all their fragment lists, exactly when the flows are ordered. */
  lemma CompleteIffOrdered(fs: set<Flow>, now: nat)
    ensures (forall s :: SaneList(s, fs) ==> Exact(s, now)) <==> AllOrdered(fs)
  {
    hide Ordered, SaneList, Exact;
    if AllOrdered(fs) {
      forall s | SaneList(s, fs) ensures Exact(s, now) { OrderedExact(s, fs, now); }
    } else {
      var f, g :| f in fs && g in fs && !Ordered(f, g);
      var s := UnorderedInexact(fs, f, g, now);
    }
  }
}
