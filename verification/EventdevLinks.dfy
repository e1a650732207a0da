/**
  The links of the event device scheduler.  A thread polls a port of the device, and the port
  must be linked to the queues of all scheduling groups of the thread: to no fewer, or events
  would be left waiting, and to no more.  Each call of the interface is one step.
 */
module EventdevLinks {
  const NUM_SCHED_GRPS := 32
  const SCHED_GROUP_NAMED := 3
  const MAX_QUEUES := 255

  /** A scheduling group: its threads and its queues. */
  datatype Group = Group(inUse: bool, mask: set<nat>, queues: set<nat>)

  /** A port: whether it is in use, and the queues the device has linked it to. */
  datatype Port = Port(linked: bool, links: set<nat>)

  type Groups = seq<Group>
  type Ports = seq<Port>

  /** Thread p is to be served events from queue q on account of the group. */
  predicate Serves(g: Group, p: nat, q: nat) { g.inUse && p in g.mask && q in g.queues }

  predicate Covers(gs: Groups, p: nat, q: nat) { exists g :: 0 <= g < |gs| && Serves(gs[g], p, q) }

  /** The port is linked to exactly the queues of the allocated groups of its thread, or to none. */
  ghost predicate PortGood(gs: Groups, port: Port, p: nat) {
    if port.linked then forall q :: q in port.links <==> Covers(gs, p, q) else port.links == {}
  }

  ghost predicate Consistent(gs: Groups, ps: Ports) { forall p :: 0 <= p < |ps| ==> PortGood(gs, ps[p], p) }

  /** A queue belongs to one group only, and groups that are not allocated have no threads. */
  ghost predicate Tidy(gs: Groups) {
    && |gs| == NUM_SCHED_GRPS
    && (forall i, j, q :: 0 <= i < j < |gs| && q in gs[i].queues ==> q !in gs[j].queues)
    && (forall i :: 0 <= i < |gs| && !gs[i].inUse ==> gs[i].mask == {})
    && (forall i :: 0 <= i < SCHED_GROUP_NAMED ==> gs[i].inUse)
    && (forall i, q :: 0 <= i < |gs| && q in gs[i].queues ==> q < MAX_QUEUES)
  }

  predicate Homeless(gs: Groups, q: nat) { forall i :: 0 <= i < |gs| ==> q !in gs[i].queues }

  /** The group of a queue decides who is served from it. */
  lemma CoversHome(gs: Groups, g: nat, p: nat, q: nat)
    requires Tidy(gs) && g < |gs| && q in gs[g].queues
    ensures Covers(gs, p, q) <==> Serves(gs[g], p, q)
  {
  }

  lemma CoversHomeless(gs: Groups, p: nat, q: nat)
    requires Homeless(gs, q)
    ensures !Covers(gs, p, q)
  {
  }

  /** A change of one group matters only for its queues, before and after. */
  lemma CoversOther(gs: Groups, g: nat, group: Group, p: nat, q: nat)
    requires g < |gs| && q !in gs[g].queues && q !in group.queues
    ensures Covers(gs[g := group], p, q) <==> Covers(gs, p, q)
  {
    if Covers(gs, p, q) {
      var i :| 0 <= i < |gs| && Serves(gs[i], p, q);
      assert Serves(gs[g := group][i], p, q);
    }
    if Covers(gs[g := group], p, q) {
      var i :| 0 <= i < |gs| && Serves(gs[g := group][i], p, q);
      assert Serves(gs[i], p, q);
    }
  }

  /** The effect of linking a port: a port that is not in use is left alone, unless it is to be taken into use. */
  function LinkedTo(port: Port, qs: set<nat>, now: bool): (r: Port) {
    if !port.linked && !now then port else Port(true, port.links + qs)
  }

  function UnlinkedFrom(port: Port, qs: set<nat>): (r: Port) {
    if !port.linked then port else Port(true, port.links - qs)
  }

  /** The effect of unlinking a port from everything. */
  function Released(port: Port): (r: Port) { if !port.linked then port else Port(false, {}) }

  /** A new queue is linked to the ports of its group. */
  lemma QueueAdded(gs: Groups, g: nat, q: nat, port: Port, p: nat)
    requires Tidy(gs) && g < |gs| && Homeless(gs, q) && q < MAX_QUEUES && PortGood(gs, port, p)
    ensures var gs' := gs[g := gs[g].(queues := gs[g].queues + {q})];
            Tidy(gs') && PortGood(gs', if p in gs[g].mask then LinkedTo(port, {q}, false) else port, p)
  {
    var group := gs[g].(queues := gs[g].queues + {q});
    var gs' := gs[g := group];
    forall x ensures Covers(gs', p, x) <==> Covers(gs, p, x) || (x == q && Serves(group, p, q)) {
      AddedCovers(gs, g, q, p, x);
    }
  }

  lemma AddedCovers(gs: Groups, g: nat, q: nat, p: nat, x: nat)
    requires Tidy(gs) && g < |gs| && Homeless(gs, q) && q < MAX_QUEUES
    ensures var group := gs[g].(queues := gs[g].queues + {q});
            Tidy(gs[g := group]) && (Covers(gs[g := group], p, x) <==>
                Covers(gs, p, x) || (x == q && Serves(group, p, q)))
  {
    var group := gs[g].(queues := gs[g].queues + {q});
    var gs' := gs[g := group];
    if x == q {
      CoversHome(gs', g, p, q);
    } else if x in gs[g].queues {
      CoversHome(gs, g, p, x);
      CoversHome(gs', g, p, x);
    } else {
      CoversOther(gs, g, group, p, x);
    }
  }

  /** A removed queue is unlinked from the ports of its group. */
  lemma QueueRemoved(gs: Groups, g: nat, q: nat, port: Port, p: nat)
    requires Tidy(gs) && g < |gs| && q in gs[g].queues && PortGood(gs, port, p)
    ensures var gs' := gs[g := gs[g].(queues := gs[g].queues - {q})];
            Tidy(gs') && PortGood(gs', if p in gs[g].mask then UnlinkedFrom(port, {q}) else port, p)
  {
    var group := gs[g].(queues := gs[g].queues - {q});
    var gs' := gs[g := group];
    CoversHome(gs, g, p, q);
    forall x ensures Covers(gs', p, x) <==> Covers(gs, p, x) && x != q {
      RemovedCovers(gs, g, q, p, x);
    }
  }

  lemma RemovedCovers(gs: Groups, g: nat, q: nat, p: nat, x: nat)
    requires Tidy(gs) && g < |gs| && q in gs[g].queues
    ensures var group := gs[g].(queues := gs[g].queues - {q});
            Tidy(gs[g := group]) && (Covers(gs[g := group], p, x) <==> Covers(gs, p, x) && x != q)
  {
    var group := gs[g].(queues := gs[g].queues - {q});
    var gs' := gs[g := group];
    if x == q {
      assert Homeless(gs', q);
      CoversHomeless(gs', p, q);
    } else if x in gs[g].queues {
      CoversHome(gs, g, p, x);
      CoversHome(gs', g, p, x);
    } else {
      CoversOther(gs, g, group, p, x);
    }
  }

  /** Changing the threads of an allocated group. */
  lemma MaskCovers(gs: Groups, g: nat, mask: set<nat>, p: nat, x: nat)
    requires Tidy(gs) && g < |gs| && gs[g].inUse
    ensures var gs' := gs[g := gs[g].(mask := mask)];
            Tidy(gs') && (Covers(gs', p, x) <==> if x in gs[g].queues then p in mask else Covers(gs, p, x))
  {
    var group := gs[g].(mask := mask);
    var gs' := gs[g := group];
    if x in gs[g].queues {
      CoversHome(gs', g, p, x);
    } else {
      CoversOther(gs, g, group, p, x);
    }
  }

  /** Threads that join a group are linked to its queues; links_mask are those that were not members. */
  lemma Joined(gs: Groups, g: nat, mask: set<nat>, port: Port, p: nat)
    requires Tidy(gs) && g < |gs| && gs[g].inUse && PortGood(gs, port, p)
    ensures var gs' := gs[g := gs[g].(mask := gs[g].mask + mask)];
            Tidy(gs') && PortGood(gs', if p in mask - gs[g].mask then LinkedTo(port, gs[g].queues, false) else port, p)
  {
    forall x ensures var gs' := gs[g := gs[g].(mask := gs[g].mask + mask)];
                     Tidy(gs') && (Covers(gs', p, x) <==> if x in gs[g].queues then p in gs[g].mask + mask
                         else Covers(gs, p, x))
    {
      MaskCovers(gs, g, gs[g].mask + mask, p, x);
    }
    forall x | x in gs[g].queues ensures Covers(gs, p, x) <==> p in gs[g].mask { CoversHome(gs, g, p, x); }
  }

  /** Threads that leave a group are unlinked from its queues. */
  lemma Left(gs: Groups, g: nat, mask: set<nat>, port: Port, p: nat)
    requires Tidy(gs) && g < |gs| && gs[g].inUse && PortGood(gs, port, p)
    ensures var gs' := gs[g := gs[g].(mask := gs[g].mask - mask)];
            Tidy(gs') && PortGood(gs', if p in gs[g].mask * mask then UnlinkedFrom(port, gs[g].queues) else port, p)
  {
    forall x ensures var gs' := gs[g := gs[g].(mask := gs[g].mask - mask)];
                     Tidy(gs') && (Covers(gs', p, x) <==> if x in gs[g].queues then p in gs[g].mask - mask
                         else Covers(gs, p, x))
    {
      MaskCovers(gs, g, gs[g].mask - mask, p, x);
    }
    forall x | x in gs[g].queues ensures Covers(gs, p, x) <==> p in gs[g].mask { CoversHome(gs, g, p, x); }
  }

  /** Adding a thread to a group without linking it is right exactly if there is nothing to link. */
  lemma ThreadAdded(gs: Groups, ps: Ports, g: nat, thr: nat)
    requires Tidy(gs) && Consistent(gs, ps) && g < |gs| && gs[g].inUse
    ensures var gs' := gs[g := gs[g].(mask := gs[g].mask + {thr})];
            && Tidy(gs')
            && (Consistent(gs', ps) <==> thr >= |ps| || !ps[thr].linked || thr in gs[g].mask || gs[g].queues == {})
  {
    var gs' := gs[g := gs[g].(mask := gs[g].mask + {thr})];
    forall p, x ensures Tidy(gs') && (Covers(gs', p, x) <==> if x in gs[g].queues then p in gs[g].mask + {thr}
        else Covers(gs, p, x)) {
      MaskCovers(gs, g, gs[g].mask + {thr}, p, x);
    }
    forall p, x | x in gs[g].queues ensures Covers(gs, p, x) <==> p in gs[g].mask { CoversHome(gs, g, p, x); }
    if thr < |ps| && ps[thr].linked && thr !in gs[g].mask && gs[g].queues != {} {
      var x :| x in gs[g].queues;
      assert PortGood(gs, ps[thr], thr);
      assert !PortGood(gs', ps[thr], thr) by { assert Covers(gs', thr, x) && x !in ps[thr].links; }
    } else {
      forall p | 0 <= p < |ps| ensures PortGood(gs', ps[p], p) { assert PortGood(gs, ps[p], p); }
    }
  }

  /** No port in use serves the given threads. */
  predicate NoneLinked(ps: Ports, mask: set<nat>) { forall p :: 0 <= p < |ps| && p in mask ==> !ps[p].linked }

  /** Who is served from a group's queues when the whole group is replaced. */
  lemma GroupCovers(gs: Groups, g: nat, group: Group, p: nat, x: nat)
    requires Tidy(gs) && g < |gs| && group.queues == gs[g].queues &&
        (!group.inUse ==> group.mask == {} && g >= SCHED_GROUP_NAMED)
    ensures Tidy(gs[g := group]) && (Covers(gs[g := group], p, x) <==> if x in gs[g].queues then p in group.mask
        else Covers(gs, p, x))
  {
    var gs' := gs[g := group];
    assert Tidy(gs');
    if x in gs[g].queues {
      CoversHome(gs', g, p, x);
    } else {
      CoversOther(gs, g, group, p, x);
    }
  }

  /** Destroying a group without unlinking its threads is right exactly if there is nothing to unlink. */
  lemma GroupDestroyed(gs: Groups, ps: Ports, g: nat)
    requires Tidy(gs) && Consistent(gs, ps) && SCHED_GROUP_NAMED <= g < |gs| && gs[g].inUse
    ensures var gs' := gs[g := Group(false, {}, gs[g].queues)];
            Tidy(gs') && (Consistent(gs', ps) <==> gs[g].queues == {} || NoneLinked(ps, gs[g].mask))
  {
    var gs' := gs[g := Group(false, {}, gs[g].queues)];
    forall p, x ensures Tidy(gs') && (Covers(gs', p, x) <==> x !in gs[g].queues && Covers(gs, p, x)) {
      GroupCovers(gs, g, Group(false, {}, gs[g].queues), p, x);
    }
    forall p, x | x in gs[g].queues ensures Covers(gs, p, x) <==> p in gs[g].mask { CoversHome(gs, g, p, x); }
    if gs[g].queues != {} && !NoneLinked(ps, gs[g].mask) {
      var p :| 0 <= p < |ps| && p in gs[g].mask && ps[p].linked;
      var x :| x in gs[g].queues;
      assert PortGood(gs, ps[p], p);
      assert !PortGood(gs', ps[p], p) by { assert x in ps[p].links && !Covers(gs', p, x); }
    } else {
      forall p | 0 <= p < |ps| ensures PortGood(gs', ps[p], p) { assert PortGood(gs, ps[p], p); }
    }
  }

  /** Creating a group without linking its threads is right exactly if there is nothing to link. */
  lemma GroupCreated(gs: Groups, ps: Ports, g: nat, mask: set<nat>)
    requires Tidy(gs) && Consistent(gs, ps) && g < |gs| && !gs[g].inUse
    ensures var gs' := gs[g := Group(true, mask, gs[g].queues)];
            Tidy(gs') && (Consistent(gs', ps) <==> gs[g].queues == {} || NoneLinked(ps, mask))
  {
    var gs' := gs[g := Group(true, mask, gs[g].queues)];
    forall p, x ensures Tidy(gs') && (Covers(gs', p, x) <==> if x in gs[g].queues then p in mask
        else Covers(gs, p, x)) {
      GroupCovers(gs, g, Group(true, mask, gs[g].queues), p, x);
    }
    forall p, x | x in gs[g].queues ensures !Covers(gs, p, x) { CoversHome(gs, g, p, x); }
    if gs[g].queues != {} && !NoneLinked(ps, mask) {
      var p :| 0 <= p < |ps| && p in mask && ps[p].linked;
      var x :| x in gs[g].queues;
      assert PortGood(gs, ps[p], p);
      assert !PortGood(gs', ps[p], p) by { assert x !in ps[p].links && Covers(gs', p, x); }
    } else {
      forall p | 0 <= p < |ps| ensures PortGood(gs', ps[p], p) { assert PortGood(gs, ps[p], p); }
    }
  }
}
