/**
  DMA sessions: transfers are started on a device that completes them in order and numbers them
  modulo 2^16; completions are matched with transfers through those numbers, and reported in
  start order as events or to polling.
 */
module DmaSession {
  import opened Basics
  import opened DmaOrder

  /** How many completions are reported at most: those that are ready, of the outstanding ones, up to a limit. */
  function Reportable(ready: nat, max: nat, outstanding: nat): (n: nat)
    ensures n <= ready && n <= max && n <= outstanding && (n == ready || n == max || n == outstanding)
  {
    if ready <= max && ready <= outstanding then ready else if max <= outstanding then max else outstanding
  }

  /** A device that takes jobs, gives them consecutive ring indices and completes them in order. */
  class Device {
    const desc: nat
    var enq: nat
    var done: nat

    ghost predicate Valid()
      reads this
    {
      desc < RING && done <= enq <= done + desc
    }

    constructor (desc: nat)
      requires desc < RING
      ensures Valid() && enq == done == 0 && this.desc == desc
    {
      this.desc := desc;
      enq, done := 0, 0;
    }

    /** Take a job: its ring index, or -1 without space, or -2 if the driver refuses. */
    method Copy(refused: bool) returns (ret: int)
      requires Valid()
      modifies this
      ensures Valid() && done == old(done)
      ensures ret < 0 ==> enq == old(enq) && (ret == -1 || ret == -2) && (ret == -1 <==> !refused)
      ensures ret >= 0 ==> enq == old(enq) + 1 && ret == Ring(old(enq)) && !refused
      ensures ret >= 0 <==> !refused && old(enq) < old(done) + desc
    {
      if refused { return -2; }
      if enq == done + desc { return -1; }
      ret := Ring(enq);
      enq := enq + 1;
    }

    /** Report up to `max` of the jobs that are ready, and the ring index of the last one. */
    method Completed(max: nat, ready: nat) returns (num: nat, idx: nat)
      requires Valid()
      modifies this
      ensures Valid() && enq == old(enq) && done == old(done) + num && num <= max
      ensures num == Reportable(ready, max, old(enq) - old(done)) && (num > 0 ==> idx == Ring(done - 1))
    {
      num := if ready < max then ready else max;
      if num > enq - done { num := enq - done; }
      done := done + num;
      idx := if num > 0 then Ring(done - 1) else 0;
    }
  }

  class Session {
    const trs: array<Transfer>
    const trsMap: array<int>
    const dev: Device
    const ordered: bool
    const maxDeq: nat
    var stash: set<nat>
    var infl: seq<nat>
    var latestIdx: int
    ghost var held: set<nat>
    ghost var started: History
    ghost var delivered: History

    /** Everything but the history of events. */
    ghost predicate Sound()
      reads `infl, `stash, `latestIdx, `held, trs, trsMap, dev
    {
      && trsMap.Length == RING && dev.Valid()
      && InOrder(trs[..], trsMap[..], infl, dev.done, dev.enq) && NoRepeats(infl)
      && latestIdx == (if dev.done == 0 then -1 else Ring(dev.done - 1))
      && Partition(trs[..], stash, held, infl) && Regular(trs[..])
    }

    ghost predicate Valid()
      reads this, trs, trsMap, dev
    {
      Sound() && Faithful(trs[..], infl, started, delivered)
    }

    constructor (transfers: nat, desc: nat, ordered: bool, maxDeq: nat)
      requires desc < RING
      ensures Valid() && infl == [] && held == {} && stash == Ids(transfers)
    {
      trs := new Transfer[transfers](i => Transfer(0, 0, NO_QUEUE, 0, 0, false));
      trsMap := new int[RING](i => -1);
      dev := new Device(desc);
      this.ordered, this.maxDeq := ordered, maxDeq;
      stash := Ids(transfers);
      infl, latestIdx := [], -1;
      held, started, delivered := {}, [], [];
    }

    /** Mark the transfers the device reports as completed. */
    method DequeueTrs(ready: nat)
      requires Valid()
      modifies `latestIdx, trs, dev
      ensures Valid() && dev.enq == old(dev.enq)
      ensures old(dev.done) <= old(dev.enq) &&
              dev.done == old(dev.done) + Reportable(ready, maxDeq, old(dev.enq) - old(dev.done))
      ensures forall i :: 0 <= i < |infl| ==> (Finished(trs[..], infl[i]) <==> i < |infl| - (dev.enq - dev.done))
      ensures Marked(old(trs[..]), trs[..], infl)
    {
      hide Partition, Faithful, Regular, InOrder, Marked, NoRepeats, Ring;
      ghost var done, enq := dev.done, dev.enq;
      MarkNone(trs[..], infl);
      var num, doneIdx := dev.Completed(maxDeq, ready);
      for i := 0 to num
        invariant dev.Valid() && dev.enq == enq && dev.done == done + num
        invariant InOrder(trs[..], trsMap[..], infl, done + i, enq) && NoRepeats(infl)
        invariant trsMap.Length == RING && latestIdx == (if done == 0 then -1 else Ring(done - 1))
        invariant Marked(old(trs[..]), trs[..], infl)
      {
        var realIdx := Ring(latestIdx + 1 + i);
        if done > 0 { RingAdd(done, i); }
        CompleteInOrder(trs[..], trsMap[..], infl, done + i, enq, 1);
        var id := trsMap[realIdx];
        ghost var ts := trs[..];
        trs[id] := trs[id].(status := 1);
        MarkOne(old(trs[..]), ts, trs[..], infl, id);
      }
      if num > 0 {
        latestIdx := doneIdx;
      }
      Unaffected(old(trs[..]), trs[..], stash, held, infl, started, delivered);
      InOrderBlocked(trs[..], trsMap[..], infl, dev.done, dev.enq);
    }

    /** Take a transfer for the user. */
    method TransferIdAlloc() returns (id: int)
      requires Valid()
      modifies `stash, `held
      ensures Valid()
      ensures old(stash) == {} ==> id == -1 && stash == {} && held == old(held)
      ensures old(stash) != {} ==> id in old(stash) && stash == old(stash) - {id} && held == old(held) + {id}
    {
      hide Faithful, InOrder, Regular;
      if stash == {} { return -1; }
      id :| id in stash;
      stash, held := stash - {id}, held + {id};
    }

    /** Give a transfer back that is not in flight. */
    method TransferIdFree(id: nat)
      requires Valid() && id in held && id !in infl
      modifies `stash, `held
      ensures Valid() && stash == old(stash) + {id} && held == old(held) - {id} && id !in old(stash)
    {
      hide Faithful, InOrder, Regular;
      stash, held := stash + {id}, held - {id};
    }

    /** Put a transfer in flight under the ring index the device gave it. */
    method Enlist(id: nat, t: Transfer, ghost enq: nat)
      requires trsMap.Length == RING && dev.Valid() && dev.enq == enq + 1
      requires InOrder(trs[..], trsMap[..], infl, dev.done, enq) && NoRepeats(infl) && enq - dev.done < RING - 1
      requires id < trs.Length && id !in infl && t.status == 0 && t.idx == Ring(enq) &&
          (t.isNone ==> t.queue == NO_QUEUE)
      requires Regular(trs[..]) && Faithful(trs[..], infl, started, delivered)
      modifies `infl, trs, trsMap, `started
      ensures infl == old(infl) + [id] && NoRepeats(infl) && trs[..] == old(trs[..])[id := t]
      ensures InOrder(trs[..], trsMap[..], infl, dev.done, dev.enq)
      ensures Regular(trs[..]) && Faithful(trs[..], infl, started, delivered)
      ensures started == if t.queue == NO_QUEUE then old(started) else old(started) + [(t.queue, Sent(t.ev, t.userPtr))]
    {
      hide InOrder, Faithful;
      StartInOrder(trs[..], trsMap[..], infl, dev.done, enq, id, t);
      InOrderBlocked(trs[..], trsMap[..], infl, dev.done, enq);
      FaithfulSame(trs[..], trs[..][id := t], infl, started, delivered);
      FaithfulStart(trs[..][id := t], infl, started, delivered, id);
      trs[id] := t;
      infl := infl + [id];
      trsMap[t.idx] := id;
      started := if t.queue == NO_QUEUE then started else started + [(t.queue, Sent(t.ev, t.userPtr))];
      assert trs[..] == old(trs[..])[id := t] && trsMap[..] == old(trsMap[..])[t.idx := id];
    }

    /**
      Start a transfer.  Polled transfers use an ID of the user, others take one for the time they
      are in flight.  The result is 1, or 0 without a free ID or space, or -1 if the driver refuses.
     */
    method TransferStart(mode: Mode, userPtr: int, refused: bool) returns (rc: int, ghost id: nat)
      requires Valid() && (mode.Poll? ==> mode.id in held && mode.id !in infl)
      modifies this, trs, trsMap, dev
      ensures Valid() && held == old(held) && delivered == old(delivered) && dev.done == old(dev.done)
      ensures rc == if !mode.Poll? && old(stash) == {} then 0 else if refused then -1
                    else if old(dev.enq) == old(dev.done) + dev.desc then 0 else 1
      ensures rc != 1 ==> infl == old(infl) && stash == old(stash) && trs[..] == old(trs[..]) && started == old(started)
      ensures rc == 1 ==>
          infl == old(infl) + [id] && id < trs.Length && id !in old(infl) && trs[..] == old(trs[..])[id := trs[id]]
      ensures rc == 1 ==> if mode.Poll? then id == mode.id && stash == old(stash)
          else id in old(stash) && stash == old(stash) - {id}
      ensures rc == 1 ==> trs[id].userPtr == userPtr && trs[id].status == 0 && trs[id].isNone == mode.NoCompletion?
      ensures rc == 1 && mode.Event? ==> started == old(started) + [(mode.queue, Sent(mode.ev, userPtr))]
      ensures rc == 1 && !mode.Event? ==> started == old(started)
    {
      hide InOrder, Faithful, Partition, Regular;
      var taken: nat := 0;
      id := 0;
      PartitionFree(trs[..], stash, held, infl);
      if !mode.Poll? {
        if stash == {} { return 0, 0; }
        taken :| taken in stash;
        stash := stash - {taken};
      }
      ghost var enq := dev.enq;
      var idx := dev.Copy(refused);
      if idx < 0 {
        if !mode.Poll? { stash := stash + {taken}; }
        assert stash == old(stash);
        return if idx == -1 then 0 else -1, 0;
      }
      var t := match mode
        case Poll(_) => Transfer(userPtr, -1, NO_QUEUE, idx, 0, false)
        case Event(ev, queue) => Transfer(userPtr, ev, queue, idx, 0, false)
        case NoCompletion => Transfer(userPtr, -1, NO_QUEUE, idx, 0, true);
      var chosen := if mode.Poll? then mode.id else taken;
      id := chosen;
      PartitionStart(trs[..], old(stash), held, infl, chosen, t);
      assert stash == old(stash) - (if Polled(t) then {} else {chosen});
      Enlist(chosen, t, enq);
      rc := 1;
    }

    /** Remove a completed transfer from the list and free its ID. */
    method FreeOrdEntry(i: nat)
      requires Sound() && i < |infl| && Finished(trs[..], infl[i]) && !Polled(trs[..][infl[i]])
      modifies `infl, `stash
      ensures Sound() && infl == old(infl)[..i] + old(infl)[i + 1..] && stash == old(stash) + {old(infl)[i]}
      ensures old(infl)[i] !in old(stash)
    {
      RemoveInOrder(trs[..], trsMap[..], infl, dev.done, dev.enq, i);
      RemovePartition(trs[..], stash, held, infl, i);
      hide InOrder, Partition, Regular;
      stash := stash + {infl[i]};
      infl := infl[..i] + infl[i + 1..];
    }

    /** What is known about the list in order. */
    lemma SoundOrder()
      requires Sound()
      ensures Blocked(trs[..], infl) && Regular(trs[..])
    {
      InOrderBlocked(trs[..], trsMap[..], infl, dev.done, dev.enq);
    }

    /** Report up to num events of completed transfers for a queue. */
    method GetOrderedEvs(queue: nat, num: nat) returns (evs: seq<Completion>, ghost ids: seq<nat>)
      requires Valid()
      modifies `infl, `stash, `delivered
      ensures Valid()
      ensures EventScan(trs[..], old(infl), queue, num, ordered) == Scan(ids, infl)
      ensures delivered == Deliver(old(delivered), queue, evs) && Carry(trs[..], ids, evs)
    {
      hide Sound, Faithful, EventScan, Continue;
      evs, ids := [], [];
      ghost var ts, infl0 := trs[..], infl;
      SoundOrder();
      FaithfulScan(ts, infl, started, delivered, queue, num, ordered);
      ContinueStart(infl, EventScan(ts, infl, queue, num, ordered));
      var i := 0;
      while i < |infl|
        invariant 0 <= i <= |infl| && Sound() && |ids| == |evs| <= num && delivered == old(delivered)
        invariant EventScan(ts, infl0, queue, num, ordered)
                  == Continue(ids, infl[..i], EventScan(ts, infl[i..], queue, num - |ids|, ordered))
        invariant Carry(ts, ids, evs)
        decreases |infl| - i
      {
        SoundOrder();
        ghost var rest := EventScan(ts, infl[i + 1..], queue, num - |ids|, ordered);
        ScanStep(ts, infl, i, queue, num - |ids|, ordered);
        var e := infl[i];
        var t := trs[e];
        if ordered && t.queue != queue && t.status == 0 { break; }
        if t.isNone && t.status != 0 {
          Removed(infl, i);
          FreeOrdEntry(i);
          continue;
        }
        if t.queue != queue || t.status == 0 {
          ContinueSkip(ids, infl, i, rest);
          i := i + 1;
          continue;
        }
        if num - |evs| == 0 { break; }
        ContinueTake(ids, infl[..i], e, EventScan(ts, infl[i + 1..], queue, num - |ids| - 1, ordered));
        evs, ids := evs + [Completion(t.ev, t.status == 1, t.userPtr)], ids + [e];
        Removed(infl, i);
        FreeOrdEntry(i);
      }
      ContinueEnd(ts, ids, infl, i, queue, num - |ids|, ordered);
      DeliverReported(ts, delivered, queue, ids, evs);
      delivered := delivered + Reported(ts, ids, queue);
    }

    /** Take the transfer of the user out of the list. */
    method Unlist(i: nat)
      requires Sound() && i < |infl| && infl[i] in held && Finished(trs[..], infl[i])
      modifies `infl
      ensures Sound() && infl == old(infl)[..i] + old(infl)[i + 1..]
    {
      RemoveInOrder(trs[..], trsMap[..], infl, dev.done, dev.enq, i);
      RemoveHeld(trs[..], stash, held, infl, i);
      hide InOrder, Partition, Regular;
      infl := infl[..i] + infl[i + 1..];
    }

    /** Report the status of a transfer of the user, and take it out of the list if it is completed. */
    method GetOrderedPolled(id: nat) returns (status: int)
      requires Valid() && id in held
      modifies `infl, `stash
      ensures Valid() && PollResult(status, infl) == PollScan(trs[..], old(infl), id, ordered)
    {
      hide Faithful, PollScan, PollContinue;
      ghost var ts, infl0 := trs[..], infl;
      FaithfulPoll(ts, infl, started, delivered, id, ordered);
      PollStart(infl, PollScan(ts, infl, id, ordered));
      hide Sound;
      status := -1;
      var i := 0;
      while i < |infl|
        invariant 0 <= i <= |infl| && Sound() && status == -1
        invariant PollScan(ts, infl0, id, ordered) == PollContinue(infl[..i], PollScan(ts, infl[i..], id, ordered))
        decreases |infl| - i
      {
        SoundOrder();
        PollStep(ts, infl, i, id, ordered);
        var e := infl[i];
        var t := trs[e];
        if ordered && e != id && t.status == 0 {
          status := 0;
          PollEnd(infl, i, 0);
          return;
        }
        if t.isNone && t.status != 0 {
          Removed(infl, i);
          FreeOrdEntry(i);
          continue;
        }
        if e != id {
          PollSkip(infl, i, PollScan(ts, infl[i + 1..], id, ordered));
          i := i + 1;
          continue;
        }
        status := t.status;
        PollEnd(infl, i, status);
        if status != 0 { Unlist(i); }
        return;
      }
      PollEmpty(ts, infl, i, id, ordered);
    }

    /**
      Ask whether a transfer is done.  For one in flight the answer is its status; it is positive
      only when all transfers started before it are completed as well.  For one that is not, the
      answer is negative, except that an ordered session answers 0 while any transfer is pending.
     */
    method TransferDone(id: nat, ready: nat) returns (status: int, userPtr: int)
      requires Valid() && id in held
      modifies `latestIdx, `infl, `stash, trs, dev
      ensures Valid() && dev.enq == old(dev.enq) && userPtr == old(trs[..])[id].userPtr && status in {-1, 0, 1}
      ensures id in old(infl) ==> status == trs[id].status && (id in infl <==> status == 0)
      ensures id in old(infl) && status != 0 ==>
                forall i, j :: 0 <= i <= j < |old(infl)| && old(infl)[j] == id ==> Finished(trs[..], old(infl)[i])
      ensures id !in old(infl) ==> status == if ordered && exists i ::
                0 <= i < |old(infl)| && !Finished(trs[..], old(infl)[i]) then 0 else -1
      ensures forall x :: x in infl ==> x in old(infl)
      ensures old(dev.done) <= old(dev.enq) && dev.done == old(dev.done) +
                if old(trs[..])[id].status == 0 then Reportable(ready, maxDeq, old(dev.enq) - old(dev.done)) else 0
      ensures forall x :: x in old(infl) && x != id && x !in infl ==> Silent(trs[..], x)
      ensures forall i :: 0 <= i < |old(infl)| && Silent(trs[..], old(infl)[i]) && id !in old(infl)[..i + 1] ==>
                old(infl)[i] !in infl
    {
      if trs[id].status == 0 {
        DequeueTrs(ready);
      }
      ghost var infl0 := infl;
      SoundOrder();
      hide Sound, Faithful, PollScan;
      PollKeeps(trs[..], infl0, id, ordered);
      status := GetOrderedPolled(id);
      if id in infl0 {
        PollExact(trs[..], infl0, id, ordered);
        forall i, j | 0 <= i <= j < |infl0| && infl0[j] == id && status != 0 ensures Finished(trs[..], infl0[i]) {
          DoneInOrder(trs[..], infl0, j, ordered);
        }
      } else {
        PollMissing(trs[..], infl0, id, ordered);
      }
      userPtr := trs[id].userPtr;
    }

    /** Fetch completion events for a queue; a session that is locked yields none. */
    method DequeueEvs(queue: nat, num: nat, ready: nat, locked: bool) returns (evs: seq<Completion>,
        ghost ids: seq<nat>)
      requires Valid()
      modifies `latestIdx, `infl, `stash, `delivered, trs, dev
      ensures Valid() && dev.enq == old(dev.enq) && |evs| <= num && (locked ==> evs == [])
      ensures delivered == Deliver(old(delivered), queue, evs) && Carry(trs[..], ids, evs)
      ensures forall j :: 0 <= j < |ids| ==> ids[j] in old(infl)
      ensures forall x :: x in infl ==> x in old(infl)
      ensures forall x :: x in old(infl) && x !in infl ==> x in ids || Silent(trs[..], x)
      ensures old(dev.done) <= old(dev.enq) && dev.done == old(dev.done) +
                if locked then 0 else Reportable(ready, maxDeq, old(dev.enq) - old(dev.done))
      ensures !locked && |evs| < num ==> forall i :: 0 <= i < |infl| && Finished(trs[..], infl[i]) ==>
          trs[..][infl[i]].queue != queue && !trs[..][infl[i]].isNone
      ensures locked ==>
          infl == old(infl) && stash == old(stash) && trs[..] == old(trs[..])
    {
      if locked { return [], []; }
      DequeueTrs(ready);
      SoundOrder();
      hide Sound, Faithful;
      ScanComplete(trs[..], infl, queue, num, ordered);
      ScanMembers(trs[..], infl, queue, num, ordered);
      evs, ids := GetOrderedEvs(queue, num);
    }
  }
}
