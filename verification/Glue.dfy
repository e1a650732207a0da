/**
  Gluing the fragments of a datagram together again, and the byte-level round trip with
  fragmentation (section 3.2 of RFC 791).
 */
module Glue {
  import opened OnesComplement
  import opened IpHeader
  import opened FragOrder
  import opened FragList
  import opened Fragment

  /** The record was read from its packet, which holds its whole header. */
  predicate Received(f: Frag) {
    f == Receive(f.id, f.pkt, f.arrival) && 20 <= Ihl(f.pkt) <= |f.pkt|
  }

  predicate AllReceived(d: seq<Frag>) { forall i :: 0 <= i < |d| ==> Received(d[i]) }

  /** The packet q with the payload of r behind it. */
  function Joint(q: Packet, r: Packet): (s: Packet)
    requires Ihl(r) <= |r|
    ensures |s| == |q| + |r| - Ihl(r)
    ensures forall k {:trigger s[k]} :: 0 <= k < |q| ==> s[k] == q[k]
  {
    q + r[Ihl(r)..]
  }

  /** The last j + 1 fragments of a datagram joined together, under the header of the foremost one. */
  function GlueUpto(d: seq<Frag>, j: nat): (r: Packet)
    requires j < |d| && AllReceived(d)
    ensures |d[j].pkt| <= |r| && forall k {:trigger r[k]} :: 0 <= k < |d[j].pkt| ==> r[k] == d[j].pkt[k]
  {
    if j == 0 then d[0].pkt else Joint(d[j].pkt, GlueUpto(d, j - 1))
  }

  lemma SameHeader(p: Packet, q: Packet)
    requires |q| >= |p| && forall k {:trigger q[k]} :: 0 <= k < |p| ==> q[k] == p[k]
    ensures Ihl(q) == Ihl(p) && FlowOf(q) == FlowOf(p)
  {
    assert q[12..20] == p[12..20];
    SameFlow(p, q);
  }

  /** The reassembled packet. */
  function Glued(d: seq<Frag>): (r: Packet)
    requires d != [] && AllReceived(d)
  {
    var q := GlueUpto(d, |d| - 1);
    SameHeader(d[|d| - 1].pkt, q);
    Refield(q, |q| % 0x1_0000, false, 0)
  }

  /** The payloads of fragments, the foremost one first. */
  function Payloads(d: seq<Frag>): (s: seq<Byte>)
    requires AllReceived(d)
  {
    if d == [] then [] else
      var n := |d| - 1;
      d[n].pkt[Ihl(d[n].pkt)..] + Payloads(d[..n])
  }

  lemma {:induction false} GlueUptoIs(d: seq<Frag>, j: nat)
    requires j < |d| && AllReceived(d)
    ensures var h := Ihl(d[j].pkt); h <= |d[j].pkt| && GlueUpto(d, j) == d[j].pkt[..h] + Payloads(d[..j + 1])
    decreases j
  {
    hide Ihl, Received, AllReceived, Payloads, Joint;
    var p := d[j].pkt;
    PayloadsStep(d, j);
    SplitFront(p, Ihl(p), Payloads(d[..j]));
    if j > 0 {
      var q, g := d[j - 1].pkt, GlueUpto(d, j - 1);
      GlueUptoIs(d, j - 1);
      GlueHeader(d, j - 1);
      JoinBehind(p, q[..Ihl(q)], Payloads(d[..j]), g);
    }
  }

  lemma GlueHeader(d: seq<Frag>, j: nat)
    requires j < |d| && AllReceived(d)
    ensures Ihl(GlueUpto(d, j)) == Ihl(d[j].pkt)
  {
    hide GlueUpto, AllReceived;
    SameHeader(d[j].pkt, GlueUpto(d, j));
  }

  lemma SplitFront(p: seq<Byte>, h: nat, s: seq<Byte>)
    requires h <= |p|
    ensures p + s == p[..h] + (p[h..] + s) && (s == [] ==> p + s == p)
  {
  }

  lemma JoinBehind(p: Packet, h: seq<Byte>, s: seq<Byte>, g: Packet)
    requires g == h + s && Ihl(g) == |h|
    ensures Joint(p, g) == p + s
  {
    hide Ihl;
  }

  lemma PayloadsStep(d: seq<Frag>, j: nat)
    requires j < |d| && AllReceived(d)
    ensures AllReceived(d[..j]) && AllReceived(d[..j + 1])
    ensures Ihl(d[j].pkt) <= |d[j].pkt| && Payloads(d[..j + 1]) == d[j].pkt[Ihl(d[j].pkt)..] + Payloads(d[..j])
    ensures j == 0 ==> Payloads(d[..j]) == []
  {
    hide Ihl, FlowOf, Receive;
    assert Received(d[j]) && d[..j + 1][..j] == d[..j];
  }

  /**
    What is glued from any fragments: all payloads, the foremost one first, under the header of the
    foremost fragment, with length, "more fragments", offset and checksum for a whole datagram.
   */
  lemma GluedIs(d: seq<Frag>)
    requires d != [] && AllReceived(d)
    ensures var r, p := Glued(d), d[|d| - 1].pkt;
            && Ihl(r) == Ihl(p) <= |r| && r[Ihl(p)..] == Payloads(d)
            && (forall k :: 0 <= k < Ihl(p) && k !in {2, 3, 6, 7, 10, 11} ==> r[k] == p[k])
            && TotLen(r) == |r| % 0x1_0000 && !MoreFragments(r) && Offset(r) == 0
            && FragField(r) / 0x4000 == FragField(p) / 0x4000
  {
    hide Ihl, Payloads, GlueUpto, FlowOf, Refield, FragField, Receive;
    var p, q := d[|d| - 1].pkt, GlueUpto(d, |d| - 1);
    assert Received(d[|d| - 1]) && d[..|d|] == d;
    GlueUptoIs(d, |d| - 1);
    SameHeader(p, q);
    SameField(q, p);
    WholeHeader(q, |q| % 0x1_0000);
  }

  lemma WholeHeader(q: Packet, len: Word)
    requires 20 <= Ihl(q) <= |q|
    ensures var r := Refield(q, len, false, 0);
            && Ihl(r) == Ihl(q) && r[Ihl(q)..] == q[Ihl(q)..]
            && (forall k {:trigger r[k]} :: 0 <= k < Ihl(q) && k !in {2, 3, 6, 7, 10, 11} ==> r[k] == q[k])
            && TotLen(r) == len && !MoreFragments(r) && Offset(r) == 0 && FragField(r) / 0x4000 == FragField(q) / 0x4000
  {
    RefieldKeeps(q, len, false, 0);
    hide Refield, Ihl;
    var r := Refield(q, len, false, 0);
    assert r[Ihl(q)..] == q[Ihl(q)..];
  }

  /** Join the packets of a chain of one flow, working backwards from the last fragment, and repair the header. */
  method SendPacket(tail: Record, ghost s: seq<Record>) returns (packet: Packet)
    requires Chain(tail, s) && s != [] && AllReceived(Frags(s))
    requires forall i :: 0 <= i < |s| ==> EqualFlow(s[0].frag, s[i].frag)
    ensures packet == Glued(Frags(s)) && 20 <= Ihl(packet) <= |packet| && HeaderValid(packet)
  {
    hide Refield, FlowOf, Receive, HeaderValid;
    ghost var d := Frags(s);
    var result := tail.frag.pkt;
    var current := tail.prev;
    ghost var j := 0;
    SameHeader(d[0].pkt, result);
    while current != null && FlowOf(current.frag.pkt) == FlowOf(result)
      invariant 0 <= j < |s| && current == Next(s, j)
      invariant result == GlueUpto(d, j)
      invariant Ihl(result) == Ihl(d[j].pkt) && FlowOf(result) == FlowOf(d[j].pkt)
      decreases |s| - j
    {
      var newResult := current.frag.pkt;
      current := current.prev;
      assert Received(d[j]);
      result := Joint(newResult, result);
      j := j + 1;
      SameHeader(d[j].pkt, result);
    }
    if j + 1 < |s| { NextFlow(s, j); }
    assert Received(d[j]);
    var length := |result|;
    packet := Refield(result, length % 0x1_0000, false, 0);
    RefieldChecksum(result, length % 0x1_0000, false, 0);
  }

  lemma NextFlow(s: seq<Record>, j: nat)
    requires j + 1 < |s| && AllReceived(Frags(s))
    requires forall i :: 0 <= i < |s| ==> EqualFlow(s[0].frag, s[i].frag)
    ensures FlowOf(s[j + 1].frag.pkt) == FlowOf(s[j].frag.pkt)
  {
    assert Received(Frags(s)[j]) && Received(Frags(s)[j + 1]);
  }

  /** The fragments of a datagram, the last one first. */
  ghost predicate FragmentsOf(d: seq<Frag>, p: Packet) {
    && WellFormed(p) && |d| == Pieces(p)
    && AllReceived(d)
    && forall j :: 0 <= j < |d| ==> d[j].pkt == Piece(p, |d| - 1 - j)
  }

  lemma PieceAt(p: Packet, i: nat)
    requires WellFormed(p) && i < Pieces(p)
    ensures MTU * i < Body(p)
    ensures i + 1 < Pieces(p) ==> PieceLen(p, i) == MTU
    ensures i + 1 == Pieces(p) ==> MTU * i + PieceLen(p, i) == Body(p)
  {
  }

  lemma JoinSlices(q: seq<Byte>, r: seq<Byte>, p: seq<Byte>, hl: nat, a: nat, b: nat)
    requires hl <= |q| && hl <= |r| && a <= b <= |p|
    requires q[hl..] == p[a..b] && r[hl..] == p[b..]
    ensures q + r[hl..] == q[..hl] + p[a..]
  {
    assert p[a..] == p[a..b] + p[b..];
  }

  /** Part of the payload from a fragment on, under that fragment's header. */
  lemma {:induction false} GlueUptoPayload(d: seq<Frag>, p: Packet, j: nat)
    requires FragmentsOf(d, p) && j < |d|
    ensures var i, hl := |d| - 1 - j, Ihl(p);
            && MTU * i < Body(p)
            && GlueUpto(d, j) == Piece(p, i)[..hl] + p[hl + MTU * i..]
    decreases j
  {
    hide Piece, Refield, Ihl, PieceLen, Received, FlowOf, Pieces, AllReceived, Joint;
    var i := |d| - 1 - j;
    PieceAt(p, i);
    if j > 0 {
      GlueUptoPayload(d, p, j - 1);
      PieceAt(p, i + 1);
      JointPayload(p, i, GlueUpto(d, j - 1));
    } else {
      LastPayload(p, i);
    }
  }

  lemma LastPayload(p: Packet, i: nat)
    requires WellFormed(p) && MTU * i < Body(p) && MTU * i + PieceLen(p, i) == Body(p)
    ensures Piece(p, i) == Piece(p, i)[..Ihl(p)] + p[Ihl(p) + MTU * i..]
  {
    hide Piece, Ihl, FlowOf, PieceLen;
    PieceContent(p, i);
    var q, hl := Piece(p, i), Ihl(p);
    assert q == q[..hl] + q[hl..] && p[hl + MTU * i..|p|] == p[hl + MTU * i..];
  }

  lemma SameIhl(p: Packet, q: Packet)
    requires p[0] == q[0]
    ensures Ihl(p) == Ihl(q)
  {
  }

  lemma JointIs(q: Packet, r: Packet, hl: nat)
    requires Ihl(r) == hl <= |r|
    ensures Joint(q, r) == q + r[hl..]
  {
  }

  /** One more fragment in front of what has been glued. */
  lemma JointPayload(p: Packet, i: nat, r: Packet)
    requires WellFormed(p) && MTU * (i + 1) < Body(p) && PieceLen(p, i) == MTU
    requires r == Piece(p, i + 1)[..Ihl(p)] + p[Ihl(p) + MTU * (i + 1)..]
    ensures Joint(Piece(p, i), r) == Piece(p, i)[..Ihl(p)] + p[Ihl(p) + MTU * i..]
  {
    hide Piece, FlowOf, PieceLen, FragField, Joint;
    var q, hl := Piece(p, i), Ihl(p);
    PieceContent(p, i);
    SameIhl(Piece(p, i + 1), r);
    hide Ihl;
    JointIs(q, r, hl);
    assert r[hl..] == p[hl + MTU * (i + 1)..];
    JoinSlices(q, r, p, hl, hl + MTU * i, hl + MTU * (i + 1));
  }

  /** Header bytes outside the rewritten fields survive in the first fragment. */
  lemma WholeAgrees(p: Packet, q: Packet)
    requires WellFormed(p) && 0 < Body(p)
    requires q == Piece(p, 0)[..Ihl(p)] + p[Ihl(p)..]
    ensures |q| == |p| && FragField(p) / 0x4000 == FragField(q) / 0x4000
    ensures forall k :: 0 <= k < |p| && k !in {2, 3, 6, 7, 10, 11} ==> q[k] == p[k]
  {
    hide Piece, Refield, FlowOf;
    PieceContent(p, 0);
    SameField(q, Piece(p, 0));
  }

  /**
    Gluing the fragments of a datagram rewrites its header fields for a whole datagram and restores
    everything else.
   */
  lemma GluedFragments(d: seq<Frag>, p: Packet)
    requires FragmentsOf(d, p) && d != []
    ensures Glued(d) == Refield(p, |p|, false, 0)
  {
    hide Refield, Piece, GlueUpto, FragField, Received, Ihl, FlowOf;
    var q := GlueUpto(d, |d| - 1);
    GlueUptoPayload(d, p, |d| - 1);
    WholeAgrees(p, q);
    RefieldSame(p, q, |p|, false, 0);
  }

  /** Fragmenting and gluing restores a datagram, byte for byte, exactly when it is canonical. */
  lemma RoundTrip(d: seq<Frag>, p: Packet)
    requires FragmentsOf(d, p) && d != []
    ensures Glued(d) == p <==> Canonical(p)
  {
    hide Refield, Glued, Received;
    GluedFragments(d, p);
    RefieldWhole(p);
  }
}
