/**
  The scheduler interface that changes groups, queues and ports of the event device.  Every
  operation keeps all ports linked to exactly the queues their threads are to be served from;
  the three that do not touch the device do so under the exact condition stated.
 */
module EventdevSched {
  import opened EventdevLinks

  ghost function Elems(s: seq<nat>): (r: set<nat>) { set x | x in s }

  class Eventdev {
    const grp: array<Group>
    const port: array<Port>
    const paused: array<bool>

    ghost predicate Shape()
      reads grp, port, paused
    {
      && paused.Length == port.Length && Tidy(grp[..])
      && forall p :: 0 <= p < port.Length && paused[p] ==> !port[p].linked
    }

    ghost predicate Valid()
      reads grp, port, paused
    {
      Shape() && Consistent(grp[..], port[..])
    }

    constructor (threads: nat)
      ensures Valid() && port.Length == threads && fresh(grp) && fresh(port) && fresh(paused)
      ensures forall i :: 0 <= i < NUM_SCHED_GRPS ==> i < grp.Length && grp[i] == Group(i < SCHED_GROUP_NAMED, {}, {})
      ensures forall p :: 0 <= p < threads ==> port[p] == Port(false, {}) && !paused[p]
    {
      grp := new Group[NUM_SCHED_GRPS](i => Group(i < SCHED_GROUP_NAMED, {}, {}));
      port := new Port[threads](i => Port(false, {}));
      paused := new bool[threads](i => false);
    }

    method LinkPort(p: nat, queueIds: seq<nat>, linkNow: bool)
      requires p < port.Length
      modifies port
      ensures port[p] == LinkedTo(old(port[p]), Elems(queueIds), linkNow)
      ensures forall i :: 0 <= i < port.Length && i != p ==> port[i] == old(port[i])
    {
      if !port[p].linked && !linkNow { return; }
      var links := port[p].links;
      for i := 0 to |queueIds|
        invariant links == port[p].links + Elems(queueIds[..i])
      {
        assert queueIds[..i + 1] == queueIds[..i] + [queueIds[i]];
        links := links + {queueIds[i]};
      }
      assert queueIds[..|queueIds|] == queueIds;
      port[p] := Port(true, links);
    }

    /** Unlink a port from the given queues. */
    method UnlinkPort(p: nat, queueIds: seq<nat>)
      requires p < port.Length
      modifies port
      ensures port[p] == UnlinkedFrom(old(port[p]), Elems(queueIds))
      ensures forall i :: 0 <= i < port.Length && i != p ==> port[i] == old(port[i])
    {
      if !port[p].linked { return; }
      var links := port[p].links;
      for i := 0 to |queueIds|
        invariant links == port[p].links - Elems(queueIds[..i])
      {
        assert queueIds[..i + 1] == queueIds[..i] + [queueIds[i]];
        links := links - {queueIds[i]};
      }
      assert queueIds[..|queueIds|] == queueIds;
      port[p] := Port(true, links);
    }

    /** Unlink a port from all queues and take it out of use. */
    method UnlinkAll(p: nat)
      requires p < port.Length
      modifies port
      ensures port[p] == Released(old(port[p]))
      ensures forall i :: 0 <= i < port.Length && i != p ==> port[i] == old(port[i])
    {
      if !port[p].linked { return; }
      port[p] := Port(false, {});
    }

    /** The queues of a group. */
    method GroupQueues(group: nat) returns (ids: seq<nat>)
      requires group < grp.Length && forall q :: q in grp[group].queues ==> q < MAX_QUEUES
      ensures Elems(ids) == grp[group].queues
    {
      ids := [];
      for j := 0 to MAX_QUEUES
        invariant forall q :: q in ids <==> q in grp[group].queues && q < j
      {
        if j in grp[group].queues { ids := ids + [j]; }
      }
    }

    /** Link or unlink all ports of a set of threads to the given queues. */
    method LinkThreads(mask: set<nat>, queueIds: seq<nat>, unlink: bool)
      modifies port
      ensures forall p :: 0 <= p < port.Length ==>
                port[p] == if p !in mask then old(port[p]) else
                           if unlink then UnlinkedFrom(old(port[p]), Elems(queueIds))
                               else LinkedTo(old(port[p]), Elems(queueIds), false)
    {
      for thr := 0 to port.Length
        invariant forall p :: thr <= p < port.Length ==> port[p] == old(port[p])
        invariant forall p :: 0 <= p < thr ==>
                    port[p] == if p !in mask then old(port[p]) else
                               if unlink then UnlinkedFrom(old(port[p]), Elems(queueIds))
                                   else LinkedTo(old(port[p]), Elems(queueIds), false)
      {
        if thr in mask {
          if unlink {
            UnlinkPort(thr, queueIds);
          } else {
            LinkPort(thr, queueIds, false);
          }
        }
      }
    }

    /** Create a queue in a group: the ports of its threads that are in use are linked to it. */
    method CreateQueue(q: nat, group: int) returns (rc: int)
      requires Valid() && Homeless(grp[..], q) && q < MAX_QUEUES
      modifies grp, port
      ensures Valid() && rc == if 0 <= group < NUM_SCHED_GRPS then 0 else -1
      ensures grp[..] ==
          if rc == 0 then old(grp[..])[group := old(grp[group]).(queues := old(grp[group]).queues + {q})]
          else old(grp[..])
      ensures forall p :: 0 <= p < port.Length ==> port[p].linked == old(port[p].linked)
    {
      if group < 0 || group >= NUM_SCHED_GRPS { return -1; }
      ghost var gs, ps := grp[..], port[..];
      grp[group] := grp[group].(queues := grp[group].queues + {q});
      LinkThreads(grp[group].mask, [q], false);
      assert Elems([q]) == {q} && grp[..] == gs[group := gs[group].(queues := gs[group].queues + {q})];
      forall p | 0 <= p < port.Length ensures Tidy(grp[..]) && PortGood(grp[..], port[p], p) {
        assert PortGood(gs, ps[p], p);
        QueueAdded(gs, group, q, ps[p], p);
      }
      TidyAfter(gs, group, q);
      rc := 0;
    }

    /** Destroy a queue of a group. */
    method DestroyQueue(q: nat, group: nat)
      requires Valid() && group < NUM_SCHED_GRPS && q in grp[..][group].queues
      modifies grp, port
      ensures Valid() && Homeless(grp[..], q)
      ensures grp[..] == old(grp[..])[group := old(grp[group]).(queues := old(grp[group]).queues - {q})]
      ensures forall p :: 0 <= p < port.Length ==> port[p].linked == old(port[p].linked) && q !in port[p].links
    {
      ghost var gs, ps := grp[..], port[..];
      grp[group] := grp[group].(queues := grp[group].queues - {q});
      LinkThreads(grp[group].mask, [q], true);
      assert Elems([q]) == {q} && grp[..] == gs[group := gs[group].(queues := gs[group].queues - {q})];
      RemovedCovers(gs, group, q, 0, q);
      forall p | 0 <= p < port.Length ensures PortGood(grp[..], port[p], p) && q !in port[p].links {
        assert PortGood(gs, ps[p], p);
        QueueRemoved(gs, group, q, ps[p], p);
        RemovedCovers(gs, group, q, p, q);
      }
    }

    /** Add threads to a named group. */
    method GroupJoin(group: int, mask: set<nat>) returns (rc: int)
      requires Valid()
      modifies grp, port
      ensures Valid() && rc == if SCHED_GROUP_NAMED <= group < NUM_SCHED_GRPS && old(grp[..])[group].inUse then 0
          else -1
      ensures grp[..] ==
          if rc == 0 then old(grp[..])[group := old(grp[..])[group].(mask := old(grp[..])[group].mask + mask)]
          else old(grp[..])
      ensures forall p :: 0 <= p < port.Length ==> port[p].linked == old(port[p].linked)
    {
      if !(SCHED_GROUP_NAMED <= group < NUM_SCHED_GRPS && grp[group].inUse) { return -1; }
      ghost var gs, ps := grp[..], port[..];
      var linkMask := mask - grp[group].mask;
      grp[group] := grp[group].(mask := grp[group].mask + mask);
      var ids := GroupQueues(group);
      LinkThreads(linkMask, ids, false);
      assert grp[..] == gs[group := gs[group].(mask := gs[group].mask + mask)];
      MaskCovers(gs, group, gs[group].mask + mask, 0, 0);
      forall p | 0 <= p < port.Length ensures PortGood(grp[..], port[p], p) {
        assert PortGood(gs, ps[p], p);
        Joined(gs, group, mask, ps[p], p);
      }
      rc := 0;
    }

    /** Remove threads from a named group. */
    method GroupLeave(group: int, mask: set<nat>) returns (rc: int)
      requires Valid()
      modifies grp, port
      ensures Valid() && rc == if SCHED_GROUP_NAMED <= group < NUM_SCHED_GRPS && old(grp[..])[group].inUse then 0
          else -1
      ensures grp[..] ==
          if rc == 0 then old(grp[..])[group := old(grp[..])[group].(mask := old(grp[..])[group].mask - mask)]
          else old(grp[..])
      ensures forall p :: 0 <= p < port.Length ==> port[p].linked == old(port[p].linked)
    {
      if !(SCHED_GROUP_NAMED <= group < NUM_SCHED_GRPS && grp[group].inUse) { return -1; }
      ghost var gs, ps := grp[..], port[..];
      var unlinkMask := grp[group].mask * mask;
      grp[group] := grp[group].(mask := grp[group].mask - mask);
      var ids := GroupQueues(group);
      LinkThreads(unlinkMask, ids, true);
      assert grp[..] == gs[group := gs[group].(mask := gs[group].mask - mask)];
      MaskCovers(gs, group, gs[group].mask - mask, 0, 0);
      forall p | 0 <= p < port.Length ensures PortGood(grp[..], port[p], p) {
        assert PortGood(gs, ps[p], p);
        Left(gs, group, mask, ps[p], p);
      }
      rc := 0;
    }

    /** The queues a thread is to be served from: those of all groups in use that contain it. */
    method ThreadQueues(p: nat) returns (ids: seq<nat>)
      requires Tidy(grp[..])
      ensures forall q :: q in ids <==> Covers(grp[..], p, q)
    {
      ids := [];
      for i := 0 to NUM_SCHED_GRPS
        invariant forall q :: q in ids <==> exists g :: 0 <= g < i && Serves(grp[g], p, q)
      {
        if grp[i].inUse && p in grp[i].mask {
          var more := GroupQueues(i);
          assert forall q :: q in more <==> q in Elems(more);
          assert forall q :: q in more <==> Serves(grp[i], p, q);
          ids := ids + more;
        }
        assert forall q :: Serves(grp[i], p, q) ==> q in ids;
      }
      assert forall g :: 0 <= g < NUM_SCHED_GRPS ==> grp[..][g] == grp[g];
    }

    /** Link the port of a thread to all its queues; without any it stays out of use. */
    method ResumeScheduling(p: nat)
      requires Shape() && p < port.Length && Consistent(grp[..], port[..]) && !paused[p]
      modifies port
      ensures Valid()
      ensures forall q :: Covers(grp[..], p, q) ==> port[p].linked && q in port[p].links
      ensures (forall q :: !Covers(grp[..], p, q)) ==> port[p] == old(port[p])
      ensures forall i :: 0 <= i < port.Length && i != p ==> port[i] == old(port[i])
    {
      var ids := ThreadQueues(p);
      assert PortGood(grp[..], port[..][p], p);
      if |ids| > 0 {
        assert ids[0] in ids;
        ghost var ps := port[..];
        LinkPort(p, ids, true);
        forall i | 0 <= i < port.Length ensures PortGood(grp[..], port[i], i) {
          assert PortGood(grp[..], ps[i], i);
        }
      }
    }

    /** Stop scheduling for a thread. */
    method Pause(p: nat)
      requires Valid() && p < port.Length
      modifies port, paused
      ensures Valid() && paused[p] && port[p] == Port(false, {})
      ensures forall i :: 0 <= i < port.Length && i != p ==> port[i] == old(port[i]) && paused[i] == old(paused[i])
    {
      ghost var ps := port[..];
      assert PortGood(grp[..], ps[p], p);
      UnlinkAll(p);
      paused[p] := true;
      forall i | 0 <= i < port.Length ensures PortGood(grp[..], port[i], i) {
        assert PortGood(grp[..], ps[i], i);
      }
    }

    method Resume(p: nat)
      requires Valid() && p < port.Length
      modifies port, paused
      ensures Valid() && !paused[p]
      ensures forall q :: Covers(grp[..], p, q) ==> port[p].linked && q in port[p].links
      ensures forall i :: 0 <= i < port.Length && i != p ==> port[i] == old(port[i]) && paused[i] == old(paused[i])
    {
      paused[p] := false;
      ResumeScheduling(p);
    }

    /**
      What a thread does before it asks the device for events: unless it has paused, it is then
      linked to all its queues.
     */
    method CheckLinked(p: nat)
      requires Valid() && p < port.Length
      modifies port
      ensures Valid()
      ensures !paused[p] ==> forall q :: Covers(grp[..], p, q) ==> port[p].linked && q in port[p].links
      ensures old(port[p]).linked || paused[p] ==> port[p] == old(port[p])
      ensures forall i :: 0 <= i < port.Length && i != p ==> port[i] == old(port[i])
    {
      assert PortGood(grp[..], port[..][p], p);
      if !port[p].linked && !paused[p] {
        ResumeScheduling(p);
      }
    }

    /** Add a thread to one of the predefined groups: the device is not touched. */
    method ThrAdd(group: int, thr: nat) returns (rc: int)
      requires Valid()
      modifies grp
      ensures Shape() && rc == if 0 <= group < SCHED_GROUP_NAMED then 0 else -1
      ensures grp[..] ==
          if rc == 0 then old(grp[..])[group := old(grp[..])[group].(mask := old(grp[..])[group].mask + {thr})]
          else old(grp[..])
      ensures rc == 0 ==> (Valid() <==>
                thr >= port.Length || !port[thr].linked || thr in old(grp[..])[group].mask ||
                    old(grp[..])[group].queues == {})
    {
      if group < 0 || group >= SCHED_GROUP_NAMED { return -1; }
      ghost var gs := grp[..];
      ThreadAdded(gs, port[..], group, thr);
      grp[group] := grp[group].(mask := grp[group].mask + {thr});
      assert grp[..] == gs[group := gs[group].(mask := gs[group].mask + {thr})];
      rc := 0;
    }

    /** Remove a thread from one of the predefined groups and take its port out of use. */
    method ThrRem(group: int, thr: nat) returns (rc: int)
      requires Valid() && thr < port.Length
      modifies grp, port
      ensures Valid() && rc == if 0 <= group < SCHED_GROUP_NAMED then 0 else -1
      ensures grp[..] ==
          if rc == 0 then old(grp[..])[group := old(grp[..])[group].(mask := old(grp[..])[group].mask - {thr})]
          else old(grp[..])
      ensures rc == 0 ==> port[thr] == Port(false, {})
      ensures forall i :: 0 <= i < port.Length && (rc != 0 || i != thr) ==> port[i] == old(port[i])
    {
      if group < 0 || group >= SCHED_GROUP_NAMED { return -1; }
      ghost var gs, ps := grp[..], port[..];
      grp[group] := grp[group].(mask := grp[group].mask - {thr});
      UnlinkAll(thr);
      assert grp[..] == gs[group := gs[group].(mask := gs[group].mask - {thr})];
      MaskCovers(gs, group, gs[group].mask - {thr}, 0, 0);
      forall p | 0 <= p < port.Length ensures PortGood(grp[..], port[p], p) {
        assert PortGood(gs, ps[p], p);
        Left(gs, group, {thr}, ps[p], p);
      }
      rc := 0;
    }

    /** Create a named group in the first free place: the device is not touched. */
    method GroupCreate(mask: set<nat>) returns (group: int)
      requires Valid()
      modifies grp
      ensures Shape() && -1 <= group < NUM_SCHED_GRPS
      ensures group == -1 ==>
          Valid() && grp[..] == old(grp[..]) && forall i :: SCHED_GROUP_NAMED <= i < NUM_SCHED_GRPS ==> grp[..][i].inUse
      ensures group != -1 ==> SCHED_GROUP_NAMED <= group && !old(grp[..])[group].inUse
      ensures group != -1 ==> forall i :: SCHED_GROUP_NAMED <= i < group ==> old(grp[..])[i].inUse
      ensures group != -1 ==> grp[..] == old(grp[..])[group := Group(true, mask, old(grp[..])[group].queues)]
      ensures group != -1 ==> (Valid() <==> old(grp[..])[group].queues == {} || NoneLinked(port[..], mask))
    {
      ghost var gs := grp[..];
      for i := SCHED_GROUP_NAMED to NUM_SCHED_GRPS
        invariant grp[..] == gs && forall j :: SCHED_GROUP_NAMED <= j < i ==> grp[..][j].inUse
      {
        if !grp[i].inUse {
          GroupCreated(gs, port[..], i, mask);
          grp[i] := Group(true, mask, grp[i].queues);
          assert grp[..] == gs[i := Group(true, mask, gs[i].queues)];
          return i;
        }
      }
      group := -1;
    }

    /** Destroy a named group: the device is not touched. */
    method GroupDestroy(group: int) returns (rc: int)
      requires Valid()
      modifies grp
      ensures Shape() && rc == if SCHED_GROUP_NAMED <= group < NUM_SCHED_GRPS && old(grp[..])[group].inUse then 0
          else -1
      ensures grp[..] == if rc == 0 then old(grp[..])[group := Group(false, {}, old(grp[..])[group].queues)]
          else old(grp[..])
      ensures rc == 0 ==>
          (Valid() <==> old(grp[..])[group].queues == {} || NoneLinked(port[..], old(grp[..])[group].mask))
    {
      if !(SCHED_GROUP_NAMED <= group < NUM_SCHED_GRPS && grp[group].inUse) { return -1; }
      ghost var gs := grp[..];
      GroupDestroyed(gs, port[..], group);
      grp[group] := Group(false, {}, grp[group].queues);
      assert grp[..] == gs[group := Group(false, {}, gs[group].queues)];
      rc := 0;
    }
  }

  lemma TidyAfter(gs: Groups, g: nat, q: nat)
    requires Tidy(gs) && g < |gs| && Homeless(gs, q) && q < MAX_QUEUES
    ensures Tidy(gs[g := gs[g].(queues := gs[g].queues + {q})])
  {
    AddedCovers(gs, g, q, 0, 0);
  }

  /** A thread in use is added to a second predefined group: its port is not linked to the queue of that group. */
  method ThrAddMisses() returns (dev: Eventdev)
    ensures fresh(dev) && !dev.Valid() && dev.port.Length == 1
    ensures dev.port[0].linked && 1 !in dev.port[0].links && Covers(dev.grp[..], 0, 1)
  {
    dev := InUse();
    var rc := dev.CreateQueue(1, 1);
    rc := dev.ThrAdd(1, 0);
    assert Serves(dev.grp[..][1], 0, 1);
  }

  /** A device whose only thread is in the first group and in use. */
  method InUse() returns (dev: Eventdev)
    ensures fresh(dev) && fresh(dev.grp) && fresh(dev.port) && fresh(dev.paused) && dev.Valid() && dev.port.Length == 1
    ensures dev.port[0].linked && !dev.paused[0] && 0 in dev.port[0].links
    ensures dev.grp[..][0] == Group(true, {0}, {0})
    ensures forall i :: 1 <= i < NUM_SCHED_GRPS ==> dev.grp[..][i] == Group(i < SCHED_GROUP_NAMED, {}, {})
  {
    dev := new Eventdev(1);
    var rc := dev.CreateQueue(0, 0);
    rc := dev.ThrAdd(0, 0);
    dev.CheckLinked(0);
    assert Serves(dev.grp[..][0], 0, 0);
  }

  /**
    A group is destroyed while it has a queue, and its place is taken by a new group: the thread is
    not linked to the queue.
   */
  method GroupCreateMisses() returns (dev: Eventdev)
    ensures fresh(dev) && !dev.Valid() && dev.port.Length == 1
    ensures dev.port[0].linked && 5 !in dev.port[0].links && Covers(dev.grp[..], 0, 5)
  {
    dev := InUse();
    assert !dev.grp[..][SCHED_GROUP_NAMED].inUse;
    var g := dev.GroupCreate({});
    var rc := dev.CreateQueue(5, g);
    rc := dev.GroupDestroy(g);
    assert !Covers(dev.grp[..], 0, 5);
    assert PortGood(dev.grp[..], dev.port[..][0], 0);
    assert !dev.grp[..][SCHED_GROUP_NAMED].inUse;
    g := dev.GroupCreate({0});
    assert Serves(dev.grp[..][g], 0, 5);
  }

  /** A group with a queue is destroyed: its thread stays linked to the queue. */
  method GroupDestroyLeaves() returns (dev: Eventdev)
    ensures fresh(dev) && !dev.Valid() && dev.port.Length == 1
    ensures dev.port[0].linked && 5 in dev.port[0].links && !Covers(dev.grp[..], 0, 5)
  {
    dev := InUse();
    assert !dev.grp[..][SCHED_GROUP_NAMED].inUse;
    var g := dev.GroupCreate({0});
    var rc := dev.CreateQueue(5, g);
    assert Serves(dev.grp[..][g], 0, 5);
    assert PortGood(dev.grp[..], dev.port[..][0], 0);
    rc := dev.GroupDestroy(g);
  }
}
