/**
  The order in which the reassembler sorts fragments: by flow, then by the end of the payload,
  then by offset, then by arrival time.
 */
module FragOrder {
  import opened Basics
  import opened IpHeader

  const TS_NOW_TOLERANCE := 5000

  /**
    A received fragment: the address of its record, its bytes, its arrival time in ticks, and
    the header fields the reassembler reads: flow, offset in eight-byte units, payload length
    in bytes and in eight-byte units, and the "more fragments" flag.
   */
  datatype Frag = Frag(id: nat, pkt: Packet, arrival: nat,
                       flow: Flow, off: nat, len: nat, oct: nat, more: bool)
  {
    /** First eight-byte unit after the payload, and end of the payload in bytes. */
    function Limit(): (n: nat) { off + oct }
    function End(): (n: nat) { 8 * off + len }

    /** Upper bound of the reassembled payload length; exact for the final fragment. */
    function Whole(): (n: nat) { if more then IP_OCTET_MAX else Limit() }

    /** Bounds that the header format implies. */
    predicate Framed() {
      8 * oct - 8 < len <= 8 * oct && off < FRAG_OFFSETS && oct <= FRAG_OFFSETS
    }
  }

  /** The fragment record of a received packet. */
  function Receive(id: nat, pkt: Packet, arrival: nat): (f: Frag)
    ensures f.Framed() && f.Whole() == ReassOct(pkt)
    ensures f.off == 256 * (pkt[6] as int % 32) + pkt[7] && (f.more <==> pkt[6] / 32 % 2 == 1)
    ensures f.len == Max(0, 256 * (pkt[2] as int) + pkt[3] - 4 * (pkt[0] % 16))
  {
    FieldPlaces(pkt);
    Frag(id, pkt, arrival, FlowOf(pkt), Offset(pkt), PayloadLen(pkt), PayloadOct(pkt), MoreFragments(pkt))
  }

  function Sub32(a: int, b: int): (r: nat) { (a - b) % TWO32 }

  function Max(a: int, b: int): (m: int) { if a > b then a else b }

  /** The earlier of two time stamps that may have wrapped around, seen from a time "now". */
  function Earliest(a: nat, b: nat, now: nat): (r: nat)
    ensures r < TWO32
  {
    var n := (now + TS_NOW_TOLERANCE) % TWO32;
    Sub32(n, Max(Sub32(n, a), Sub32(n, b)))
  }

  lemma ModIs(v: int, k: int, r: nat)
    requires v == TWO32 * k + r && r < TWO32
    ensures v % TWO32 == r
  {
  }

  /** How long before `limit` a time lies, computed from what is left of both after wrap-around. */
  lemma Sub32Is(limit: int, x: int)
    requires 0 <= limit - x < TWO32
    ensures Sub32(limit % TWO32, x % TWO32) == limit - x
  {
    ModIs(limit % TWO32 - x % TWO32, x / TWO32 - limit / TWO32, limit - x);
  }

  /**
    Of two times not later than now, give or take the tolerance, and not more than 2^32 ticks ago,
    it is the earlier one, whether or not they have wrapped around.
   */
  lemma EarliestIsEarlier(x: nat, y: nat, now: nat)
    requires now + TS_NOW_TOLERANCE - TWO32 < x <= now + TS_NOW_TOLERANCE
    requires now + TS_NOW_TOLERANCE - TWO32 < y <= now + TS_NOW_TOLERANCE
    ensures Earliest(x % TWO32, y % TWO32, now) == (if x < y then x else y) % TWO32
  {
    var limit, m := now + TS_NOW_TOLERANCE, if x < y then x else y;
    Sub32Is(limit, x);
    Sub32Is(limit, y);
    ModIs(limit % TWO32 - (limit - m), m / TWO32 - limit / TWO32, m % TWO32);
  }

  predicate EqualFlow(a: Frag, b: Frag) { a.flow == b.flow }

  /** The flow comparison: any one field being greater makes a flow later. */
  predicate LaterFlow(f: Flow, g: Flow) {
    f.addrs > g.addrs || f.id > g.id || f.proto > g.proto
  }

  /** The comparisons of flows as the code makes them, on the bytes of two packets. */
  lemma FlowComparisons(i: nat, p: Packet, t: nat, j: nat, q: Packet, u: nat)
    ensures EqualFlow(Receive(i, p, t), Receive(j, q, u)) <==>
        p[12..20] == q[12..20] && p[4..6] == q[4..6] && p[9] == q[9]
    ensures LaterFlow(Receive(i, p, t).flow, Receive(j, q, u).flow) <==>
        BytesGreater(p[12..20], q[12..20]) || BytesGreater(HostId(p), HostId(q)) || p[9] > q[9]
  {
    FlowBytes(p, q);
    AddrsOrder(p, q);
    IdOrder(p, q);
    hide BytesGreater, HostId;
  }

  predicate Later(a: Frag, b: Frag, now: nat) {
    LaterFlow(a.flow, b.flow) ||
    (EqualFlow(a, b) &&
     (a.End() > b.End() ||
      (a.End() == b.End() &&
       (a.off < b.off || (a.off == b.off && b.arrival == Earliest(a.arrival, b.arrival, now))))))
  }

  /** Of two copies of a fragment, the later one is the one that arrived later, also after wrap-around. */
  lemma LaterCopy(a: Frag, b: Frag, x: nat, y: nat, now: nat)
    requires EqualFlow(a, b) && a.off == b.off && a.len == b.len
    requires a.arrival == x % TWO32 && b.arrival == y % TWO32
    requires now + TS_NOW_TOLERANCE - TWO32 < x <= now + TS_NOW_TOLERANCE
    requires now + TS_NOW_TOLERANCE - TWO32 < y <= now + TS_NOW_TOLERANCE
    ensures Later(a, b, now) <==> y <= x
  {
    EarliestIsEarlier(x, y, now);
    hide Earliest;
    if x < y {
      var limit := now + TS_NOW_TOLERANCE;
      Sub32Is(limit, x);
      Sub32Is(limit, y);
    }
  }

  /** No two fields of the flows differ in opposite directions. */
  predicate Ordered(f: Flow, g: Flow) {
    || (f.addrs <= g.addrs && f.id <= g.id && f.proto <= g.proto)
    || (g.addrs <= f.addrs && g.id <= f.id && g.proto <= f.proto)
  }

  ghost predicate AllOrdered(fs: set<Flow>) { forall f, g :: f in fs && g in fs ==> Ordered(f, g) }

  ghost predicate LinearOn(fs: set<Flow>) {
    && (forall f, g :: f in fs && g in fs && LaterFlow(f, g) ==> !LaterFlow(g, f))
    && (forall f, g :: f in fs && g in fs && f != g ==> LaterFlow(f, g) || LaterFlow(g, f))
    && (forall f, g, h :: f in fs && g in fs && h in fs && LaterFlow(f, g) && LaterFlow(g, h) ==> LaterFlow(f, h))
  }

  /** The comparison is a strict linear order on a set of flows exactly when all of them are ordered field by field. */
  lemma LaterFlowLinear(fs: set<Flow>)
    ensures LinearOn(fs) <==> AllOrdered(fs)
  {
    forall f, g | f in fs && g in fs
      ensures Ordered(f, g) <==> !(LaterFlow(f, g) && LaterFlow(g, f))
    {
    }
    if AllOrdered(fs) {
      forall f, g, h | f in fs && g in fs && h in fs && LaterFlow(f, g) && LaterFlow(g, h)
        ensures LaterFlow(f, h)
      {
        assert Ordered(f, g) && Ordered(g, h);
      }
    }
  }

  /** Two fragments of one flow do not overlap, and only the last one may lack "more fragments". */
  predicate Apart(a: Frag, b: Frag) {
    (a.Limit() <= b.off && a.more) || (b.Limit() <= a.off && b.more)
  }

  /** Fragments without overlap or duplication, each with some payload. */
  ghost predicate Sane(u: set<Frag>) {
    && (forall a :: a in u ==> a.Framed() && a.len > 0)
    && (forall a, b :: a in u && b in u && a != b && EqualFlow(a, b) ==> Apart(a, b))
  }

  ghost predicate FlowsOrdered(u: set<Frag>) {
    forall a, b :: a in u && b in u ==> Ordered(a.flow, b.flow)
  }

  /** Within one flow, "later" means: lies behind. */
  lemma LaterInFlow(u: set<Frag>, a: Frag, b: Frag, now: nat)
    requires Sane(u) && a in u && b in u && a != b && EqualFlow(a, b)
    ensures Later(a, b, now) <==> b.Limit() <= a.off
    ensures Later(a, b, now) <==> !Later(b, a, now)
    ensures Later(a, b, now) ==> b.more && b.off < a.off
  {
    assert Apart(a, b);
  }

  /** On sane fragments of ordered flows the comparison is a strict linear order. */
  lemma LaterTotal(u: set<Frag>, a: Frag, b: Frag, now: nat)
    requires Sane(u) && FlowsOrdered(u) && a in u && b in u && a != b
    ensures Later(a, b, now) <==> !Later(b, a, now)
  {
    if EqualFlow(a, b) {
      LaterInFlow(u, a, b, now);
    } else {
      assert Ordered(a.flow, b.flow);
    }
  }

  lemma LaterTransitive(u: set<Frag>, a: Frag, b: Frag, c: Frag, now: nat)
    requires Sane(u) && FlowsOrdered(u) && a in u && b in u && c in u
    requires a != b && b != c && a != c
    requires Later(a, b, now) && Later(b, c, now)
    ensures Later(a, c, now)
  {
    assert Ordered(a.flow, b.flow) && Ordered(b.flow, c.flow);
    if EqualFlow(a, b) && EqualFlow(b, c) {
      LaterInFlow(u, a, b, now);
      LaterInFlow(u, b, c, now);
      LaterInFlow(u, a, c, now);
    }
  }
}
