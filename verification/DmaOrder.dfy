/**
  The bookkeeping of DMA transfers in flight: ring indices modulo 2^16, the order of completed
  and pending transfers, looking for events and polling, and the history of events.
 */
module DmaOrder {
  import opened Basics

  const RING := 0x1_0000
  const NO_QUEUE := -1

  function Ring(n: int): (r: nat)
    ensures r < RING
  {
    n % RING
  }

  /** Ring indices of fewer than 2^16 consecutive jobs differ. */
  lemma RingInjective(a: nat, b: nat)
    requires a < b < a + RING
    ensures Ring(a) != Ring(b)
  {
  }

  /** A transfer: status 0 means pending; a queue is named for completion events only. */
  datatype Transfer = Transfer(userPtr: int, ev: int, queue: int, idx: nat, status: int, isNone: bool)

  datatype Mode = Poll(id: nat) | Event(ev: int, queue: nat) | NoCompletion

  type Table = seq<Transfer>

  /** The transfer is pending under a ring index, and the index leads to it. */
  predicate Pending(ts: Table, tm: seq<int>, id: nat, r: nat) {
    id < |ts| && r < |tm| && ts[id].status == 0 && ts[id].idx == r && tm[r] == id
  }

  predicate Finished(ts: Table, id: nat) { id < |ts| && ts[id].status != 0 }

  /**
    The in-flight list is a completed block followed by the pending transfers in start order,
    which are exactly the outstanding jobs of the device.
   */
  ghost predicate InOrder(ts: Table, tm: seq<int>, infl: seq<nat>, done: nat, enq: nat) {
    && done <= enq && enq - done <= |infl| && |tm| == RING
    && var k := |infl| - (enq - done);
       && (forall i :: 0 <= i < k ==> Finished(ts, infl[i]))
       && (forall i :: k <= i < |infl| ==> Pending(ts, tm, infl[i], Ring(done + (i - k))))
  }

  /** A transfer started as the next job joins the list at its end. */
  lemma StartInOrder(ts: Table, tm: seq<int>, infl: seq<nat>, done: nat, enq: nat, id: nat, t: Transfer)
    requires InOrder(ts, tm, infl, done, enq) && NoRepeats(infl) && id < |ts| && id !in infl && enq - done < RING - 1
    requires t.status == 0 && t.idx == Ring(enq)
    ensures InOrder(ts[id := t], tm[Ring(enq) := id], infl + [id], done, enq + 1)
  {
    var k := |infl| - (enq - done);
    forall i | k <= i < |infl| + 1
        ensures Pending(ts[id := t], tm[Ring(enq) := id], (infl + [id])[i], Ring(done + (i - k))) {
      if i < |infl| {
        assert Pending(ts, tm, infl[i], Ring(done + (i - k)));
        RingInjective(done + (i - k), enq);
      }
    }
  }

  /** Marking the transfer found under the next outstanding ring index completes the oldest pending one. */
  lemma CompleteInOrder(ts: Table, tm: seq<int>, infl: seq<nat>, done: nat, enq: nat, status: int)
    requires InOrder(ts, tm, infl, done, enq) && NoRepeats(infl) && done < enq && status != 0
    ensures var k := |infl| - (enq - done);
            && 0 <= k < |infl| && tm[Ring(done)] == infl[k] < |ts| && ts[infl[k]].status == 0
            && InOrder(ts[infl[k] := ts[infl[k]].(status := status)], tm, infl, done + 1, enq)
  {
    var k := |infl| - (enq - done);
    assert Pending(ts, tm, infl[k], Ring(done + (k - k)));
    var ts' := ts[infl[k] := ts[infl[k]].(status := status)];
    forall i | 0 <= i < k + 1 ensures Finished(ts', infl[i]) {
      if i < k { assert Finished(ts, infl[i]); }
    }
    forall i | k + 1 <= i < |infl| ensures Pending(ts', tm, infl[i], Ring(done + 1 + (i - (k + 1)))) {
      assert Pending(ts, tm, infl[i], Ring(done + (i - k)));
      assert done + 1 + (i - (k + 1)) == done + (i - k);
    }
  }

  /** Removing completed transfers keeps the order. */
  lemma RemoveInOrder(ts: Table, tm: seq<int>, infl: seq<nat>, done: nat, enq: nat, j: nat)
    requires InOrder(ts, tm, infl, done, enq) && j < |infl| && Finished(ts, infl[j])
    ensures InOrder(ts, tm, infl[..j] + infl[j + 1..], done, enq)
    ensures j < |infl| - (enq - done)
  {
    var k, s := |infl| - (enq - done), infl[..j] + infl[j + 1..];
    if j >= k { assert false; }
    forall i | 0 <= i < k - 1 ensures Finished(ts, s[i]) {
      assert Finished(ts, infl[if i < j then i else i + 1]);
    }
    forall i | k - 1 <= i < |s| ensures Pending(ts, tm, s[i], Ring(done + (i - (k - 1)))) {
      assert Pending(ts, tm, infl[i + 1], Ring(done + (i + 1 - k)));
      assert i + 1 - k == i - (k - 1);
    }
  }

  /** Transfers that report completion on a queue, in order. */
  function For(ts: Table, s: seq<nat>, q: int): (r: seq<nat>)
    decreases |s|
  {
    if s == [] then [] else
      var r := For(ts, s[1..], q);
      if s[0] < |ts| && ts[s[0]].queue == q then [s[0]] + r else r
  }

  lemma {:induction false} ForAppend(ts: Table, a: seq<nat>, b: seq<nat>, q: int)
    ensures For(ts, a + b, q) == For(ts, a, q) + For(ts, b, q)
    decreases |a|
  {
    if a == [] {
      assert a + b == b;
    } else {
      assert (a + b)[1..] == a[1..] + b;
      ForAppend(ts, a[1..], b, q);
    }
  }

  /** Completed transfers first, pending ones behind. */
  ghost predicate Blocked(ts: Table, s: seq<nat>) {
    && (forall i :: 0 <= i < |s| ==> s[i] < |ts|)
    && (forall i, j :: 0 <= i < j < |s| && Finished(ts, s[j]) ==> Finished(ts, s[i]))
  }

  lemma InOrderBlocked(ts: Table, tm: seq<int>, infl: seq<nat>, done: nat, enq: nat)
    requires InOrder(ts, tm, infl, done, enq)
    ensures Blocked(ts, infl)
    ensures forall i :: 0 <= i < |infl| ==> (Finished(ts, infl[i]) <==> i < |infl| - (enq - done))
  {
    var k := |infl| - (enq - done);
    forall i | 0 <= i < |infl| ensures infl[i] < |ts| && (Finished(ts, infl[i]) <==> i < k) {
      if i < k { assert Finished(ts, infl[i]); } else { assert Pending(ts, tm, infl[i], Ring(done + (i - k))); }
    }
  }

  /** Outcome of looking for events: those reported, and the list that stays. */
  datatype Scan = Scan(evs: seq<nat>, kept: seq<nat>)

  /**
    Look through a list for up to num events of a queue; completed transfers without completion are
    dropped on the way.
   */
  function EventScan(ts: Table, s: seq<nat>, queue: int, num: nat, ordered: bool): (r: Scan)
    decreases |s|
  {
    if s == [] || s[0] >= |ts| then Scan([], s)
    else
      var e, t := s[0], ts[s[0]];
      if ordered && t.queue != queue && t.status == 0 then Scan([], s)
      else if t.isNone && t.status != 0 then EventScan(ts, s[1..], queue, num, ordered)
      else if t.queue != queue || t.status == 0 then
        var r := EventScan(ts, s[1..], queue, num, ordered);
        Scan(r.evs, [e] + r.kept)
      else if num > 0 then
        var r := EventScan(ts, s[1..], queue, num - 1, ordered);
        Scan([e] + r.evs, r.kept)
      else Scan([], s)
  }

  lemma BlockedTail(ts: Table, s: seq<nat>)
    requires Blocked(ts, s) && s != []
    ensures Blocked(ts, s[1..]) && s[0] < |ts|
    ensures !Finished(ts, s[0]) ==> forall i :: 0 <= i < |s| ==> !Finished(ts, s[i])
  {
    var t := s[1..];
    forall i, j | 0 <= i < j < |t| && Finished(ts, t[j]) ensures Finished(ts, t[i]) { assert Finished(ts, s[j + 1]); }
    if !Finished(ts, s[0]) {
      forall i | 0 <= i < |s| ensures !Finished(ts, s[i]) {}
    }
  }

  /** Without a completed transfer nothing is reported and nothing is dropped. */
  lemma {:induction false} ScanPending(ts: Table, s: seq<nat>, queue: int, num: nat, ordered: bool)
    requires forall i :: 0 <= i < |s| ==> !Finished(ts, s[i])
    ensures EventScan(ts, s, queue, num, ordered) == Scan([], s)
    decreases |s|
  {
    if s != [] && s[0] < |ts| {
      assert !Finished(ts, s[0]);
      assert forall i :: 0 <= i < |s[1..]| ==> s[1..][i] == s[i + 1];
      ScanPending(ts, s[1..], queue, num, ordered);
      assert s == [s[0]] + s[1..];
    }
  }

  /** Transfers without completion have no queue. */
  /** Transfers without completion have no queue, and transfers are pending or done. */
  ghost predicate Regular(ts: Table) {
    && (forall i :: 0 <= i < |ts| && ts[i].isNone ==> ts[i].queue == NO_QUEUE)
    && (forall i :: 0 <= i < |ts| ==> ts[i].status == 0 || ts[i].status == 1)
  }

  lemma ForCons(ts: Table, e: nat, s: seq<nat>, q: int)
    ensures For(ts, [e] + s, q) == (if e < |ts| && ts[e].queue == q then [e] else []) + For(ts, s, q)
  {
    assert ([e] + s)[1..] == s;
  }

  /**
    What is reported on a queue and what stays for it is what was there for it, in start order;
    other queues lose nothing.
   */
  lemma {:induction false} ScanKeepsOrder(ts: Table, s: seq<nat>, queue: int, num: nat, ordered: bool, q: int)
    requires Blocked(ts, s) && Regular(ts) && q != NO_QUEUE
    ensures var r := EventScan(ts, s, queue, num, ordered);
            For(ts, s, q) == (if q == queue then r.evs else []) + For(ts, r.kept, q)
    decreases |s|
  {
    hide For;
    if s == [] {
      assert [] + For(ts, s, q) == For(ts, s, q);
    } else {
      BlockedTail(ts, s);
      var e, t := s[0], s[1..];
      assert s == [e] + t;
      if !Finished(ts, e) {
        ScanPending(ts, s, queue, num, ordered);
        assert [] + For(ts, s, q) == For(ts, s, q);
      } else if ts[e].queue == queue && !ts[e].isNone && num == 0 {
        assert EventScan(ts, s, queue, num, ordered) == Scan([], s);
        assert [] + For(ts, s, q) == For(ts, s, q);
      } else {
        ScanKeepsOrder(ts, t, queue, num, ordered, q);
        if num > 0 { ScanKeepsOrder(ts, t, queue, num - 1, ordered, q); }
        ForCons(ts, e, t, q);
        ForCons(ts, e, EventScan(ts, t, queue, num, ordered).kept, q);
      }
    }
  }

  /**
    Only completed events of the queue are reported, no more than asked for, and if there was room
    left none of them stays.
   */
  lemma {:induction false} ScanComplete(ts: Table, s: seq<nat>, queue: int, num: nat, ordered: bool)
    requires Blocked(ts, s) && Regular(ts) && queue != NO_QUEUE
    ensures var r := EventScan(ts, s, queue, num, ordered);
            && |r.evs| <= num
            && (forall i :: 0 <= i < |r.evs| ==> Finished(ts, r.evs[i]) && ts[r.evs[i]].queue == queue)
            && (|r.evs| < num ==> forall i :: 0 <= i < |r.kept| && Finished(ts, r.kept[i]) ==>
                ts[r.kept[i]].queue != queue && !ts[r.kept[i]].isNone)
    decreases |s|
  {
    if s != [] {
      BlockedTail(ts, s);
      if Finished(ts, s[0]) {
        ScanComplete(ts, s[1..], queue, num, ordered);
        if num > 0 { ScanComplete(ts, s[1..], queue, num - 1, ordered); }
      } else {
        ScanPending(ts, s, queue, num, ordered);
      }
    }
  }

  /** A completed transfer that nobody is told about. */
  predicate Silent(ts: Table, id: nat) { Finished(ts, id) && ts[id].isNone }

  /** Outcome of polling: the status reported, and the list that stays. */
  datatype PollResult = PollResult(status: int, kept: seq<nat>)

  function PollScan(ts: Table, s: seq<nat>, id: nat, ordered: bool): (r: PollResult)
    decreases |s|
  {
    if s == [] || s[0] >= |ts| then PollResult(-1, s)
    else
      var e, t := s[0], ts[s[0]];
      if ordered && e != id && t.status == 0 then PollResult(0, s)
      else if t.isNone && t.status != 0 then PollScan(ts, s[1..], id, ordered)
      else if e != id then
        var r := PollScan(ts, s[1..], id, ordered);
        PollResult(r.status, [e] + r.kept)
      else PollResult(t.status, if t.status != 0 then s[1..] else s)
  }

  /** Polling a transfer reports its status, and removes it exactly if it is completed. */
  lemma {:induction false} PollExact(ts: Table, s: seq<nat>, id: nat, ordered: bool)
    requires Blocked(ts, s) && NoRepeats(s) && id in s && !ts[id].isNone
    ensures var r := PollScan(ts, s, id, ordered);
            && r.status == ts[id].status
            && (id in r.kept <==> r.status == 0)
    decreases |s|
  {
    BlockedTail(ts, s);
    var e, t := s[0], s[1..];
    assert s == [e] + t;
    if e == id {
      assert forall i :: 0 <= i < |t| ==> t[i] == s[i + 1];
    } else if Finished(ts, e) {
      PollExact(ts, t, id, ordered);
    } else {
      var i :| 0 <= i < |s| && s[i] == id;
      assert !Finished(ts, s[i]);
      if !ordered { PollExact(ts, t, id, ordered); }
    }
  }

  /** Polling a transfer that is not in flight: an ordered session answers 0 while any transfer is pending. */
  lemma {:induction false} PollMissing(ts: Table, s: seq<nat>, id: nat, ordered: bool)
    requires id !in s && forall i :: 0 <= i < |s| ==> s[i] < |ts|
    ensures PollScan(ts, s, id, ordered).status ==
            if ordered && exists i :: 0 <= i < |s| && !Finished(ts, s[i]) then 0 else -1
    decreases |s|
  {
    if s != [] {
      var t := s[1..];
      PollMissing(ts, t, id, ordered);
      assert forall i :: 0 <= i < |t| ==> t[i] == s[i + 1];
      if exists i :: 0 <= i < |t| && !Finished(ts, t[i]) {
        var i :| 0 <= i < |t| && !Finished(ts, t[i]);
        assert !Finished(ts, s[i + 1]);
      }
    }
  }

  /** Polling takes no other transfer out of the list, except those nobody is told about, and of these all in front. */
  lemma {:induction false} PollKeeps(ts: Table, s: seq<nat>, id: nat, ordered: bool)
    requires Blocked(ts, s) && NoRepeats(s)
    ensures var r := PollScan(ts, s, id, ordered);
            && (forall x :: x in r.kept ==> x in s)
            && (forall x :: x in s && x != id && !Silent(ts, x) ==> x in r.kept)
            && (forall i :: 0 <= i < |s| && Silent(ts, s[i]) && id !in s[..i + 1] ==> s[i] !in r.kept)
    decreases |s|
  {
    if s != [] {
      BlockedTail(ts, s);
      var e, t := s[0], s[1..];
      assert s == [e] + t && e !in t;
      PollKeeps(ts, t, id, ordered);
      var r := PollScan(ts, s, id, ordered);
      forall i | 0 <= i < |s| && Silent(ts, s[i]) && id !in s[..i + 1] ensures s[i] !in r.kept {
        assert s[..i + 1][0] == e;
        if i > 0 { assert s[..i + 1] == [e] + t[..i] && s[i] == t[i - 1]; }
      }
    }
  }

  /** A completed transfer is reported only when all transfers started before it are completed. */
  lemma DoneInOrder(ts: Table, s: seq<nat>, j: nat, ordered: bool)
    requires Blocked(ts, s) && NoRepeats(s) && j < |s| && !ts[s[j]].isNone
    requires PollScan(ts, s, s[j], ordered).status != 0
    ensures forall i :: 0 <= i <= j ==> Finished(ts, s[i])
  {
    PollExact(ts, s, s[j], ordered);
  }

  /** An event and the user pointer it is to carry. */
  datatype Sent = Sent(ev: int, userPtr: int)

  function What(t: Transfer): (x: Sent) { Sent(t.ev, t.userPtr) }

  /** Events of transfers. */
  function Evs(ts: Table, s: seq<nat>): (r: seq<Sent>)
    decreases |s|
  {
    if s == [] || s[0] >= |ts| then [] else [What(ts[s[0]])] + Evs(ts, s[1..])
  }

  lemma {:induction false} EvsAppend(ts: Table, a: seq<nat>, b: seq<nat>)
    requires forall i :: 0 <= i < |a| ==> a[i] < |ts|
    ensures Evs(ts, a + b) == Evs(ts, a) + Evs(ts, b)
    decreases |a|
  {
    if a == [] {
      assert a + b == b;
    } else {
      assert (a + b)[1..] == a[1..] + b;
      EvsAppend(ts, a[1..], b);
    }
  }

  /** Events with the queue they are for. */
  type History = seq<(int, Sent)>

  function Sel(h: History, q: int): (r: seq<Sent>)
    decreases |h|
  {
    if h == [] then [] else
      var r := Sel(h[..|h| - 1], q);
      if h[|h| - 1].0 == q then r + [h[|h| - 1].1] else r
  }

  /** On every queue, the events delivered so far and those of transfers in flight are those started, in start order. */
  ghost predicate Faithful(ts: Table, infl: seq<nat>, started: History, delivered: History) {
    forall q :: q != NO_QUEUE ==> Sel(started, q) == Sel(delivered, q) + Evs(ts, For(ts, infl, q))
  }

  /** Queue and event of the listed transfers are the same. */
  ghost predicate SameEvents(ts: Table, ts': Table, s: seq<nat>) {
    |ts'| == |ts| && forall i :: 0 <= i < |s| ==>
        s[i] < |ts| && ts'[s[i]].queue == ts[s[i]].queue && What(ts'[s[i]]) == What(ts[s[i]])
  }

  lemma {:induction false} ForSame(ts: Table, ts': Table, s: seq<nat>, q: int)
    requires SameEvents(ts, ts', s)
    ensures For(ts', s, q) == For(ts, s, q) && Evs(ts', For(ts, s, q)) == Evs(ts, For(ts, s, q))
    decreases |s|
  {
    if s != [] {
      assert forall i :: 0 <= i < |s[1..]| ==> s[1..][i] == s[i + 1];
      ForSame(ts, ts', s[1..], q);
      var r := For(ts, s[1..], q);
      assert ([s[0]] + r)[1..] == r;
    }
  }

  lemma FaithfulSame(ts: Table, ts': Table, infl: seq<nat>, started: History, delivered: History)
    requires Faithful(ts, infl, started, delivered) && SameEvents(ts, ts', infl)
    ensures Faithful(ts', infl, started, delivered)
  {
    forall q | q != NO_QUEUE ensures Sel(started, q) == Sel(delivered, q) + Evs(ts', For(ts', infl, q)) {
      ForSame(ts, ts', infl, q);
    }
  }

  lemma {:induction false} ForBound(ts: Table, s: seq<nat>, q: int)
    ensures forall i :: 0 <= i < |For(ts, s, q)| ==> For(ts, s, q)[i] < |ts|
    decreases |s|
  {
    if s != [] { ForBound(ts, s[1..], q); }
  }

  lemma SelAppend(h: History, q: int, x: Sent, q': int)
    ensures Sel(h + [(q, x)], q') == Sel(h, q') + if q == q' then [x] else []
  {
    assert (h + [(q, x)])[..|h|] == h;
  }

  /** Starting a transfer with an event adds it behind those in flight. */
  lemma FaithfulStart(ts: Table, infl: seq<nat>, started: History, delivered: History, id: nat)
    requires Faithful(ts, infl, started, delivered) && id < |ts|
    ensures Faithful(ts, infl + [id], if ts[id].queue == NO_QUEUE then started
        else started + [(ts[id].queue, What(ts[id]))], delivered)
  {
    hide Sel;
    var started' := if ts[id].queue == NO_QUEUE then started else started + [(ts[id].queue, What(ts[id]))];
    forall q | q != NO_QUEUE ensures Sel(started', q) == Sel(delivered, q) + Evs(ts, For(ts, infl + [id], q)) {
      ForAppend(ts, infl, [id], q);
      ForBound(ts, infl, q);
      assert For(ts, [id], q) == if ts[id].queue == q then [id] else [];
      EvsAppend(ts, For(ts, infl, q), For(ts, [id], q));
      assert Evs(ts, [id]) == [What(ts[id])];
      SelAppend(started, ts[id].queue, What(ts[id]), q);
    }
  }

  /** Events reported on a queue as entries of a history. */
  function Reported(ts: Table, evs: seq<nat>, queue: int): (h: History)
    decreases |evs|
  {
    if evs == [] || evs[|evs| - 1] >= |ts| then []
    else Reported(ts, evs[..|evs| - 1], queue) + [(queue, What(ts[evs[|evs| - 1]]))]
  }

  lemma ReportedLast(ts: Table, evs: seq<nat>, queue: int)
    requires evs != [] && evs[|evs| - 1] < |ts|
    ensures Reported(ts, evs, queue) == Reported(ts, evs[..|evs| - 1], queue) + [(queue, What(ts[evs[|evs| - 1]]))]
  {
  }

  lemma EvsOne(ts: Table, e: nat)
    requires e < |ts|
    ensures Evs(ts, [e]) == [What(ts[e])]
  {
    assert [e][1..] == [];
  }

  lemma NoneReported(ts: Table, queue: int)
    ensures Reported(ts, [], queue) == [] && Evs(ts, []) == []
  {
  }

  lemma {:induction false} SelReported(ts: Table, h: History, evs: seq<nat>, queue: int, q: int)
    requires forall i :: 0 <= i < |evs| ==> evs[i] < |ts|
    ensures Sel(h + Reported(ts, evs, queue), q) == Sel(h, q) + if q == queue then Evs(ts, evs) else []
    decreases |evs|
  {
    hide Sel, Evs, Reported;
    if evs == [] {
      NoneReported(ts, queue);
      assert h + [] == h;
    } else {
      var a, e := evs[..|evs| - 1], evs[|evs| - 1];
      SelReported(ts, h, a, queue, q);
      ReportedLast(ts, evs, queue);
      EvsOne(ts, e);
      var r := Reported(ts, a, queue);
      assert h + (r + [(queue, What(ts[e]))]) == (h + r) + [(queue, What(ts[e]))];
      SelAppend(h + r, queue, What(ts[e]), q);
      EvsAppend(ts, a, [e]);
      assert evs == a + [e];
    }
  }

  /** Reporting events delivers the oldest ones of the queue. */
  lemma FaithfulScan(ts: Table, infl: seq<nat>, started: History, delivered: History, queue: int, num: nat,
      ordered: bool)
    requires Faithful(ts, infl, started, delivered) && Blocked(ts, infl) && Regular(ts) && queue != NO_QUEUE
    ensures var r := EventScan(ts, infl, queue, num, ordered);
            Faithful(ts, r.kept, started, delivered + Reported(ts, r.evs, queue))
  {
    hide Sel, For, Evs, Reported, EventScan, Finished;
    var r := EventScan(ts, infl, queue, num, ordered);
    ScanComplete(ts, infl, queue, num, ordered);
    assert forall i :: 0 <= i < |r.evs| ==> r.evs[i] < |ts| by { FinishedBound(ts, r.evs); }
    forall q | q != NO_QUEUE
        ensures Sel(started, q) == Sel(delivered + Reported(ts, r.evs, queue), q) + Evs(ts, For(ts, r.kept, q)) {
      ScanKeepsOrder(ts, infl, queue, num, ordered, q);
      SelReported(ts, delivered, r.evs, queue, q);
      var front := if q == queue then r.evs else [];
      EvsAppend(ts, front, For(ts, r.kept, q));
      assert Evs(ts, []) == [] by { EvsEmpty(ts); }
    }
  }

  lemma EvsEmpty(ts: Table)
    ensures Evs(ts, []) == []
  {
  }

  lemma FinishedBound(ts: Table, s: seq<nat>)
    requires forall i :: 0 <= i < |s| ==> Finished(ts, s[i])
    ensures forall i :: 0 <= i < |s| ==> s[i] < |ts|
  {
    forall i | 0 <= i < |s| ensures s[i] < |ts| { assert Finished(ts, s[i]); }
  }

  /** Polling takes no events away. */
  lemma {:induction false} PollKeepsEvents(ts: Table, s: seq<nat>, id: nat, ordered: bool, q: int)
    requires id < |ts| && (id in s ==> ts[id].queue == NO_QUEUE) && Regular(ts) && q != NO_QUEUE
    ensures For(ts, PollScan(ts, s, id, ordered).kept, q) == For(ts, s, q)
    decreases |s|
  {
    if s != [] && s[0] < |ts| {
      PollKeepsEvents(ts, s[1..], id, ordered, q);
      hide For;
      assert s == [s[0]] + s[1..];
      ForCons(ts, s[0], s[1..], q);
      ForCons(ts, s[0], PollScan(ts, s[1..], id, ordered).kept, q);
    }
  }

  predicate Polled(t: Transfer) { t.queue == NO_QUEUE && !t.isNone }

  /**
    Every transfer is free, held by the user, or in flight on behalf of the session; polled ones in
    flight are held by the user.
   */
  ghost predicate Partition(ts: Table, stash: set<nat>, held: set<nat>, infl: seq<nat>) {
    && (forall id :: id in stash ==> id < |ts| && id !in held && id !in infl)
    && (forall id :: id in held ==> id < |ts|)
    && (forall id :: id in infl ==> id < |ts| && (id in held <==> Polled(ts[id])))
    && (forall id: nat :: id < |ts| ==> id in stash || id in held || id in infl)
  }

  lemma PartitionFree(ts: Table, stash: set<nat>, held: set<nat>, infl: seq<nat>)
    requires Partition(ts, stash, held, infl)
    ensures (forall id :: id in stash ==> id < |ts| && id !in infl) && forall id :: id in held ==> id < |ts|
  {
  }

  /** A free transfer, or a polled one of the user, is put in flight. */
  lemma PartitionStart(ts: Table, stash: set<nat>, held: set<nat>, infl: seq<nat>, id: nat, t: Transfer)
    requires Partition(ts, stash, held, infl) && id !in infl && if Polled(t) then id in held else id in stash
    ensures Partition(ts[id := t], stash - (if Polled(t) then {} else {id}), held, infl + [id])
  {
  }

  lemma RingAdd(done: nat, i: nat)
    requires done > 0
    ensures Ring(Ring(done - 1) + 1 + i) == Ring(done + i)
  {
  }

  function Ids(n: nat): (s: set<nat>)
    ensures forall id: nat :: id in s <==> id < n
  {
    if n == 0 then {} else Ids(n - 1) + {n - 1}
  }

  /** Some pending transfers in flight were marked completed; nothing else changed. */
  ghost predicate Marked(ts: Table, ts': Table, infl: seq<nat>) {
    |ts'| == |ts| && forall id: nat :: id < |ts| ==>
      ts'[id] == ts[id] || (ts[id].status == 0 && ts'[id] == ts[id].(status := 1) && id in infl)
  }

  lemma {:induction false} ScanMembers(ts: Table, s: seq<nat>, queue: int, num: nat, ordered: bool)
    ensures var r := EventScan(ts, s, queue, num, ordered);
            && (forall x :: x in r.evs || x in r.kept ==> x in s)
            && (forall x :: x in s ==> x in r.kept || x in r.evs || Silent(ts, x))
    decreases |s|
  {
    if s != [] {
      assert s == [s[0]] + s[1..];
      ScanMembers(ts, s[1..], queue, num, ordered);
      if num > 0 { ScanMembers(ts, s[1..], queue, num - 1, ordered); }
    }
  }

  /**
    At any moment the events delivered on a queue are the first ones started for it, and all of them
    once none is in flight.
   */
  lemma DeliveredInStartOrder(ts: Table, infl: seq<nat>, started: History, delivered: History, q: int)
    requires Faithful(ts, infl, started, delivered) && q != NO_QUEUE && forall i :: 0 <= i < |infl| ==> infl[i] < |ts|
    ensures Sel(delivered, q) <= Sel(started, q)
    ensures Sel(delivered, q) == Sel(started, q) <==> forall i :: 0 <= i < |infl| ==> ts[infl[i]].queue != q
  {
    ForEmpty(ts, infl, q);
    ForBound(ts, infl, q);
    assert Evs(ts, For(ts, infl, q)) == [] <==> For(ts, infl, q) == [];
    assert |Sel(started, q)| == |Sel(delivered, q)| + |Evs(ts, For(ts, infl, q))|;
  }

  lemma {:induction false} ForEmpty(ts: Table, s: seq<nat>, q: int)
    requires forall i :: 0 <= i < |s| ==> s[i] < |ts|
    ensures For(ts, s, q) == [] <==> forall i :: 0 <= i < |s| ==> ts[s[i]].queue != q
    decreases |s|
  {
    if s != [] {
      var t := s[1..];
      assert forall i :: 0 <= i < |t| ==> t[i] == s[i + 1];
      ForEmpty(ts, t, q);
      if forall i :: 0 <= i < |t| ==> ts[t[i]].queue != q {
        forall i | 0 < i < |s| ensures ts[s[i]].queue != q { assert t[i - 1] == s[i]; }
      }
    }
  }

  /** The outcome of a poll of which a first part is done. */
  function PollContinue(kept: seq<nat>, rest: PollResult): (r: PollResult) { PollResult(rest.status, kept + rest.kept) }

  lemma PollStart(s: seq<nat>, r: PollResult)
    ensures PollContinue(s[..0], r) == r && s[0..] == s
  {
    assert s[..0] + r.kept == r.kept;
  }

  lemma PollStep(ts: Table, s: seq<nat>, i: nat, id: nat, ordered: bool)
    requires i < |s| && s[i] < |ts|
    ensures var t, r, here := ts[s[i]], PollScan(ts, s[i + 1..], id, ordered), PollScan(ts, s[i..], id, ordered);
            if ordered && s[i] != id && t.status == 0 then here == PollResult(0, s[i..])
            else if t.isNone && t.status != 0 then here == r
            else if s[i] != id then here == PollResult(r.status, [s[i]] + r.kept)
            else here == PollResult(t.status, if t.status != 0 then s[i + 1..] else s[i..])
  {
    assert s[i..][1..] == s[i + 1..];
  }

  lemma PollSkip(s: seq<nat>, i: nat, r: PollResult)
    requires i < |s|
    ensures PollContinue(s[..i], PollResult(r.status, [s[i]] + r.kept)) == PollContinue(s[..i + 1], r)
  {
    assert s[..i] + ([s[i]] + r.kept) == s[..i + 1] + r.kept;
  }

  lemma PollEnd(s: seq<nat>, i: nat, status: int)
    requires i < |s|
    ensures PollContinue(s[..i], PollResult(status, s[i..])) == PollResult(status, s)
    ensures PollContinue(s[..i], PollResult(status, s[i + 1..])) == PollResult(status, s[..i] + s[i + 1..])
  {
  }

  lemma PollEmpty(ts: Table, s: seq<nat>, i: nat, id: nat, ordered: bool)
    requires i == |s|
    ensures PollContinue(s[..i], PollScan(ts, s[i..], id, ordered)) == PollResult(-1, s)
  {
  }

  lemma FaithfulPoll(ts: Table, infl: seq<nat>, started: History, delivered: History, id: nat, ordered: bool)
    requires Faithful(ts, infl, started, delivered) && Regular(ts) && id < |ts| &&
        (id in infl ==> ts[id].queue == NO_QUEUE)
    ensures Faithful(ts, PollScan(ts, infl, id, ordered).kept, started, delivered)
  {
    forall q | q != NO_QUEUE ensures For(ts, PollScan(ts, infl, id, ordered).kept, q) == For(ts, infl, q) {
      PollKeepsEvents(ts, infl, id, ordered, q);
    }
  }

  lemma RemoveHeld(ts: Table, stash: set<nat>, held: set<nat>, infl: seq<nat>, i: nat)
    requires Partition(ts, stash, held, infl) && NoRepeats(infl) && i < |infl| && infl[i] in held
    ensures Partition(ts, stash, held, infl[..i] + infl[i + 1..]) && NoRepeats(infl[..i] + infl[i + 1..])
  {
    var s := infl[..i] + infl[i + 1..];
    forall x: nat ensures x in s <==> x in infl && x != infl[i] { DropMember(infl, i, x); }
  }

  /** What a completion event carries. */
  datatype Completion = Completion(ev: int, success: bool, userPtr: int)

  /** The completion events returned are those of the transfers. */
  ghost predicate Carry(ts: Table, ids: seq<nat>, evs: seq<Completion>) {
    |evs| == |ids| && forall j :: 0 <= j < |ids| ==>
      ids[j] < |ts| && evs[j] == Completion(ts[ids[j]].ev, true, ts[ids[j]].userPtr)
  }

  /** A history with the returned completion events behind it, all for one queue. */
  function Deliver(h: History, queue: int, evs: seq<Completion>): (r: History)
    ensures |r| == |h| + |evs| && h <= r
    ensures forall j :: 0 <= j < |evs| ==> r[|h| + j] == (queue, Sent(evs[j].ev, evs[j].userPtr))
  {
    h + seq(|evs|, j requires 0 <= j < |evs| => (queue, Sent(evs[j].ev, evs[j].userPtr)))
  }

  lemma {:induction false} ReportedLength(ts: Table, ids: seq<nat>, queue: int)
    requires forall j :: 0 <= j < |ids| ==> ids[j] < |ts|
    ensures |Reported(ts, ids, queue)| == |ids|
    decreases |ids|
  {
    if ids != [] { ReportedLength(ts, ids[..|ids| - 1], queue); }
  }

  lemma {:induction false} ReportedAt(ts: Table, ids: seq<nat>, queue: int, j: nat)
    requires j < |ids| && forall k :: 0 <= k < |ids| ==> ids[k] < |ts|
    ensures |Reported(ts, ids, queue)| == |ids| && Reported(ts, ids, queue)[j] == (queue, What(ts[ids[j]]))
    decreases |ids|
  {
    var n := |ids| - 1;
    ReportedLength(ts, ids[..n], queue);
    if j < n { ReportedAt(ts, ids[..n], queue, j); }
  }

  /** What is reported is what is returned. */
  lemma DeliverReported(ts: Table, h: History, queue: int, ids: seq<nat>, evs: seq<Completion>)
    requires Carry(ts, ids, evs)
    ensures h + Reported(ts, ids, queue) == Deliver(h, queue, evs)
  {
    hide Reported;
    ReportedLength(ts, ids, queue);
    var a, b := h + Reported(ts, ids, queue), Deliver(h, queue, evs);
    forall i | |h| <= i < |a| ensures a[i] == b[i] {
      ReportedAt(ts, ids, queue, i - |h|);
      assert b[|h| + (i - |h|)] == (queue, Sent(evs[i - |h|].ev, evs[i - |h|].userPtr));
    }
  }

  /** The outcome of a scan of which a first part is done. */
  function Continue(evs: seq<nat>, kept: seq<nat>, rest: Scan): (r: Scan) { Scan(evs + rest.evs, kept + rest.kept) }

  /** What looking at one entry does. */
  lemma ScanStep(ts: Table, s: seq<nat>, i: nat, queue: int, num: nat, ordered: bool)
    requires i < |s| && s[i] < |ts|
    ensures var t, r, here := ts[s[i]], EventScan(ts, s[i + 1..], queue, num, ordered),
        EventScan(ts, s[i..], queue, num, ordered);
            if ordered && t.queue != queue && t.status == 0 then here == Scan([], s[i..])
            else if t.isNone && t.status != 0 then here == r
            else if t.queue != queue || t.status == 0 then here == Scan(r.evs, [s[i]] + r.kept)
            else if num == 0 then here == Scan([], s[i..])
            else var r' := EventScan(ts, s[i + 1..], queue, num - 1, ordered); here == Scan([s[i]] + r'.evs, r'.kept)
  {
    assert s[i..][1..] == s[i + 1..];
  }

  lemma ContinueStart(s: seq<nat>, r: Scan)
    ensures Continue([], s[..0], r) == r && s[0..] == s
  {
    assert [] + r.evs == r.evs && s[..0] + r.kept == r.kept;
  }

  lemma ContinueSkip(ids: seq<nat>, s: seq<nat>, i: nat, r: Scan)
    requires i < |s|
    ensures Continue(ids, s[..i], Scan(r.evs, [s[i]] + r.kept)) == Continue(ids, s[..i + 1], r)
  {
    assert s[..i] + ([s[i]] + r.kept) == s[..i + 1] + r.kept;
  }

  lemma ContinueTake(ids: seq<nat>, kept: seq<nat>, e: nat, r: Scan)
    ensures Continue(ids, kept, Scan([e] + r.evs, r.kept)) == Continue(ids + [e], kept, r)
  {
    assert ids + ([e] + r.evs) == ids + [e] + r.evs;
  }

  lemma ContinueEnd(ts: Table, ids: seq<nat>, s: seq<nat>, i: nat, queue: int, num: nat, ordered: bool)
    requires i <= |s| && (i == |s| || EventScan(ts, s[i..], queue, num, ordered) == Scan([], s[i..]))
    ensures Continue(ids, s[..i], EventScan(ts, s[i..], queue, num, ordered)) == Scan(ids, s)
  {
    assert s[..i] + s[i..] == s && ids + [] == ids;
  }

  lemma Removed(s: seq<nat>, i: nat)
    requires i < |s|
    ensures var r := s[..i] + s[i + 1..]; r[..i] == s[..i] && r[i..] == s[i + 1..]
  {
  }

  lemma RemovePartition(ts: Table, stash: set<nat>, held: set<nat>, infl: seq<nat>, i: nat)
    requires Partition(ts, stash, held, infl) && NoRepeats(infl) && i < |infl| && infl[i] < |ts| && !Polled(ts[infl[i]])
    ensures infl[i] !in stash && Partition(ts, stash + {infl[i]}, held, infl[..i] + infl[i + 1..])
    ensures NoRepeats(infl[..i] + infl[i + 1..])
  {
    var s := infl[..i] + infl[i + 1..];
    forall x: nat ensures x in s <==> x in infl && x != infl[i] { DropMember(infl, i, x); }
    assert infl[i] in infl;
  }

  lemma DropMember(s: seq<nat>, i: nat, x: nat)
    requires NoRepeats(s) && i < |s|
    ensures x in s[..i] + s[i + 1..] <==> x in s && x != s[i]
  {
    var r := s[..i] + s[i + 1..];
    if x in r {
      var j :| 0 <= j < |r| && r[j] == x;
      assert s[if j < i then j else j + 1] == x;
    }
    if x in s && x != s[i] {
      var j :| 0 <= j < |s| && s[j] == x;
      assert r[if j < i then j else j - 1] == x;
    }
  }

  lemma MarkNone(ts: Table, infl: seq<nat>)
    ensures Marked(ts, ts, infl)
  {
  }

  lemma MarkOne(ts: Table, ts': Table, ts'': Table, infl: seq<nat>, id: nat)
    requires Marked(ts, ts', infl) && id in infl && id < |ts'| && ts'[id].status == 0
    requires ts'' == ts'[id := ts'[id].(status := 1)]
    ensures Marked(ts, ts'', infl)
  {
  }

  /** A change of status only affects the order. */
  lemma Unaffected(ts: Table, ts': Table, stash: set<nat>, held: set<nat>, infl: seq<nat>, started: History,
      delivered: History)
    requires Marked(ts, ts', infl)
    requires Partition(ts, stash, held, infl) && Regular(ts) && Faithful(ts, infl, started, delivered)
    ensures Partition(ts', stash, held, infl) && Regular(ts') && Faithful(ts', infl, started, delivered)
  {
    hide Faithful;
    forall i | 0 <= i < |infl|
        ensures infl[i] < |ts| && ts'[infl[i]].queue == ts[infl[i]].queue && What(ts'[infl[i]]) == What(ts[infl[i]]) {
      assert infl[i] in infl;
    }
    FaithfulSame(ts, ts', infl, started, delivered);
  }
}
