/**
  Concurrent use of the flow hash cache.  Lookups and insertions of any number of threads are
  interleaved at their locks; two threads may insert the same flow twice, and the store may run
  full.  Every answer is the first matching route of the list.
 */
module FlowCacheRun {
  import opened Basics
  import opened L3fwdRoutes
  import opened FlowTable

  /** Where a thread is in the lookup of an address. */
  datatype Thread =
    | Idle
    | Missed(ip: nat)
    | Scanned(ip: nat, entry: nat)
    | Holding(ip: nat, entry: nat, slot: nat)
    | Filled(ip: nat, entry: nat, slot: nat)

  datatype Config = Config(rs: Table, hash: nat -> nat)

  /** `chains` lists the slots of each bucket in order, and serves only to state properties. */
  datatype State = State(flows: Slots, heads: seq<int>, chains: seq<seq<nat>>, used: nat,
                         threads: seq<Thread>, answers: seq<(nat, Option<nat>)>)

  datatype Event = Lookup(t: nat, ip: nat) | ScanList(t: nat) | Alloc(t: nat) | Fill(t: nat) | Publish(t: nat)

  /** Follow the links to the first slot with the key; a chain has at most as many slots as the store. */
  function Walk(flows: Slots, at: int, key: nat, most: nat): (f: Option<nat>)
    decreases most
  {
    if most == 0 || !(0 <= at < |flows|) then None
    else if flows[at].key == key then Some(at) else Walk(flows, flows[at].next, key, most - 1)
  }

  /** The first slot of a chain with the key. */
  function Find(flows: Slots, s: seq<nat>, key: nat, i: nat): (f: Option<nat>)
    requires i <= |s|
    decreases |s| - i
  {
    if i == |s| || s[i] >= |flows| then None else if flows[s[i]].key == key then Some(s[i])
        else Find(flows, s, key, i + 1)
  }

  predicate Enabled(st: State, e: Event) {
    && e.t < |st.threads|
    && match e
       case Lookup(t, _) => st.threads[t].Idle?
       case ScanList(t) => st.threads[t].Missed?
       case Alloc(t) => st.threads[t].Scanned?
       case Fill(t) => st.threads[t].Holding? && st.threads[t].slot < |st.flows|
       case Publish(t) => st.threads[t].Filled? && st.threads[t].slot < |st.flows|
  }

  function Answer(st: State, t: nat, ip: nat, r: Option<nat>): (st': State)
    requires t < |st.threads|
  {
    st.(threads := st.threads[t := Idle], answers := st.answers + [(ip, r)])
  }

  function Apply(c: Config, st: State, e: Event): (st': State)
    requires Enabled(st, e) && |st.heads| == |st.chains| > 0
  {
    var th := st.threads[e.t];
    match e
    case Lookup(t, ip) =>
      (match Walk(st.flows, st.heads[c.hash(ip) % |st.heads|], ip, |st.flows|)
       case Some(f) => if f < |st.flows| then Answer(st, t, ip, Some(st.flows[f].entry)) else st
       case None => st.(threads := st.threads[t := Missed(ip)]))
    case ScanList(t) =>
      (match FirstMatch(c.rs, th.ip)
       case Some(k) => st.(threads := st.threads[t := Scanned(th.ip, k)])
       case None => Answer(st, t, th.ip, None))
    case Alloc(t) =>
      if st.used < |st.flows| then st.(threads := st.threads[t := Holding(th.ip, th.entry, st.used)],
          used := st.used + 1)
      else Answer(st, t, th.ip, Some(th.entry))
    case Fill(t) =>
      st.(flows := st.flows[th.slot := st.flows[th.slot].(key := th.ip, entry := th.entry)],
          threads := st.threads[t := Filled(th.ip, th.entry, th.slot)])
    case Publish(t) =>
      var b := c.hash(th.ip) % |st.heads|;
      var slot := st.flows[th.slot];
      Answer(st.(flows := st.flows[th.slot := if st.heads[b] != -1 then slot.(next := st.heads[b]) else slot],
                 heads := st.heads[b := th.slot], chains := st.chains[b := [th.slot] + st.chains[b]]),
             t, th.ip, Some(th.entry))
  }

  /** A bucket is chained, belongs to its hash value and leads to first matching routes. */
  ghost predicate BucketGood(c: Config, flows: Slots, heads: seq<int>, chains: seq<seq<nat>>, used: nat, b: nat)
    requires b < |heads| == |chains|
  {
    && BucketOk(flows, heads[b], chains[b], used, b, |heads|, c.hash)
    && forall i :: 0 <= i < |chains[b]| ==> RightSlot(c, flows, chains[b][i])
  }

  predicate RightSlot(c: Config, flows: Slots, f: nat) {
    f < |flows| && FirstMatch(c.rs, flows[f].key) == Some(flows[f].entry)
  }

  predicate Holds(th: Thread, f: nat) { (th.Holding? || th.Filled?) && th.slot == f }

  /** A slot in the hands of a thread is fresh, in no chain, and filled as the thread says. */
  ghost predicate ThreadGood(c: Config, st: State, th: Thread) {
    match th
    case Idle => true
    case Missed(_) => true
    case Scanned(ip, k) => FirstMatch(c.rs, ip) == Some(k)
    case Holding(ip, k, f) => FirstMatch(c.rs, ip) == Some(k) && Loose(st, f)
    case Filled(ip, k, f) =>
        FirstMatch(c.rs, ip) == Some(k) && Loose(st, f) && st.flows[f].key == ip && st.flows[f].entry == k
  }

  ghost predicate Loose(st: State, f: nat) {
    && f < st.used && f < |st.flows| && st.flows[f].next == -1
    && forall b :: 0 <= b < |st.chains| ==> f !in st.chains[b]
  }

  ghost predicate Good(c: Config, st: State) {
    && |st.heads| == |st.chains| > 0 && st.used <= |st.flows|
    && (forall i :: st.used <= i < |st.flows| ==> st.flows[i].next == -1)
    && (forall b :: 0 <= b < |st.heads| ==> BucketGood(c, st.flows, st.heads, st.chains, st.used, b))
    && (forall t :: 0 <= t < |st.threads| ==> ThreadGood(c, st, st.threads[t]))
    && (forall t, u, f :: 0 <= t < u < |st.threads| && Holds(st.threads[t], f) ==> !Holds(st.threads[u], f))
    && (forall i :: 0 <= i < |st.answers| ==> st.answers[i].1 == FirstMatch(c.rs, st.answers[i].0))
  }

  lemma {:induction false} FindSound(flows: Slots, s: seq<nat>, key: nat, i: nat)
    requires i <= |s|
    ensures var f := Find(flows, s, key, i); f.Some? ==> f.value in s && f.value < |flows| && flows[f.value].key == key
    decreases |s| - i
  {
    if i < |s| && s[i] < |flows| && flows[s[i]].key != key { FindSound(flows, s, key, i + 1); }
  }

  lemma {:induction false} WalkIsFind(flows: Slots, s: seq<nat>, key: nat, i: nat, most: nat)
    requires (forall k :: 0 <= k < |s| ==> LinkOk(flows, s, k)) && i <= |s| && most >= |s| - i
    ensures Walk(flows, if i < |s| then s[i] else -1, key, most) == Find(flows, s, key, i)
    decreases |s| - i
  {
    if i < |s| {
      assert LinkOk(flows, s, i);
      if flows[s[i]].key != key { WalkIsFind(flows, s, key, i + 1, most - 1); }
    }
  }

  /** Following the links of a bucket finds the first slot of its chain with the key. */
  lemma WalkChain(flows: Slots, head: int, s: seq<nat>, key: nat)
    requires Chained(flows, head, s)
    ensures Walk(flows, head, key, |flows|) == Find(flows, s, key, 0)
  {
    ChainShort(flows, head, s);
    WalkIsFind(flows, s, key, 0, |flows|);
  }

  lemma LookupGood(c: Config, st: State, t: nat, ip: nat)
    requires Good(c, st) && Enabled(st, Lookup(t, ip))
    ensures Good(c, Apply(c, st, Lookup(t, ip)))
  {
    hide Chained, Walk, Find;
    var b := c.hash(ip) % |st.heads|;
    assert BucketGood(c, st.flows, st.heads, st.chains, st.used, b);
    WalkChain(st.flows, st.heads[b], st.chains[b], ip);
    FindSound(st.flows, st.chains[b], ip, 0);
    ThreadOnly(c, st, Apply(c, st, Lookup(t, ip)), t);
  }

  /** Steps that change nothing but the thread, and perhaps answer. */
  lemma ThreadOnly(c: Config, st: State, st': State, t: nat)
    requires Good(c, st) && t < |st.threads|
    requires st' == st.(threads := st'.threads, answers := st'.answers)
    requires |st'.threads| == |st.threads| && st'.threads == st.threads[t := st'.threads[t]]
    requires !st'.threads[t].Holding? && !st'.threads[t].Filled? && ThreadGood(c, st', st'.threads[t])
    requires st'.answers == st.answers || exists a :: st'.answers == st.answers + [a] && a.1 == FirstMatch(c.rs, a.0)
    ensures Good(c, st')
  {
    hide BucketGood, FirstMatch;
    forall u | 0 <= u < |st'.threads| ensures ThreadGood(c, st', st'.threads[u]) {
      if u != t { assert ThreadGood(c, st, st.threads[u]); }
    }
  }

  lemma ScanGood(c: Config, st: State, t: nat)
    requires Good(c, st) && Enabled(st, ScanList(t))
    ensures Good(c, Apply(c, st, ScanList(t)))
  {
    hide BucketGood, FirstMatch;
    ThreadOnly(c, st, Apply(c, st, ScanList(t)), t);
  }

  lemma AllocGood(c: Config, st: State, t: nat)
    requires Good(c, st) && Enabled(st, Alloc(t))
    ensures Good(c, Apply(c, st, Alloc(t)))
  {
    hide FirstMatch;
    var st' := Apply(c, st, Alloc(t));
    assert ThreadGood(c, st, st.threads[t]);
    if st.used < |st.flows| {
      forall b | 0 <= b < |st.heads|
          ensures BucketGood(c, st'.flows, st'.heads, st'.chains, st'.used, b) && st.used !in st.chains[b] {
        assert BucketGood(c, st.flows, st.heads, st.chains, st.used, b);
      }
      hide BucketGood;
      forall u | 0 <= u < |st'.threads| ensures ThreadGood(c, st', st'.threads[u]) {
        if u != t { assert ThreadGood(c, st, st.threads[u]); }
      }
      forall u | 0 <= u < |st.threads|
          ensures !Holds(st.threads[u], st.used) { assert ThreadGood(c, st, st.threads[u]); }
    } else {
      ThreadOnly(c, st, st', t);
    }
  }

  /** A chain is not affected by writes to a slot outside it. */
  lemma BucketKeeps(c: Config, flows: Slots, heads: seq<int>, chains: seq<seq<nat>>, used: nat, b: nat, f: nat,
      slot: Slot)
    requires b < |heads| == |chains| && BucketGood(c, flows, heads, chains, used, b) && f < |flows| && f !in chains[b]
    ensures BucketGood(c, flows[f := slot], heads, chains, used, b)
  {
    var flows', s := flows[f := slot], chains[b];
    forall i | 0 <= i < |s| ensures LinkOk(flows', s, i) && RightSlot(c, flows', s[i]) {
      assert LinkOk(flows, s, i) && RightSlot(c, flows, s[i]) && s[i] != f;
    }
  }

  lemma FillGood(c: Config, st: State, t: nat)
    requires Good(c, st) && Enabled(st, Fill(t))
    ensures Good(c, Apply(c, st, Fill(t)))
  {
    hide FirstMatch, BucketGood;
    var st', th := Apply(c, st, Fill(t)), st.threads[t];
    assert ThreadGood(c, st, th);
    forall b | 0 <= b < |st.heads| ensures BucketGood(c, st'.flows, st'.heads, st'.chains, st'.used, b) {
      BucketKeeps(c, st.flows, st.heads, st.chains, st.used, b, th.slot, st'.flows[th.slot]);
    }
    assert Holds(th, th.slot);
    forall u | 0 <= u < |st'.threads| ensures ThreadGood(c, st', st'.threads[u]) {
      if u != t {
        assert ThreadGood(c, st, st.threads[u]);
        assert !Holds(st.threads[u], th.slot);
      }
    }
  }

  /** The bucket after a slot that was in no chain has been put in front. */
  lemma BucketGrows(c: Config, flows: Slots, heads: seq<int>, chains: seq<seq<nat>>, used: nat, b: nat, f: nat,
      slot: Slot)
    requires b < |heads| == |chains| && BucketGood(c, flows, heads, chains, used, b) && f < |flows| && f < used &&
        f !in chains[b]
    requires slot.next == heads[b] && c.hash(slot.key) % |heads| == b && FirstMatch(c.rs, slot.key) == Some(slot.entry)
    ensures BucketGood(c, flows[f := slot], heads[b := f], chains[b := [f] + chains[b]], used, b)
  {
    hide FirstMatch;
    var flows', s, s' := flows[f := slot], chains[b], [f] + chains[b];
    forall i | 0 <= i < |s'| ensures LinkOk(flows', s', i) && RightSlot(c, flows', s'[i]) {
      if i > 0 { assert LinkOk(flows, s, i - 1) && RightSlot(c, flows, s[i - 1]) && s'[i] == s[i - 1] &&
          s[i - 1] != f; }
    }
  }

  lemma PublishGood(c: Config, st: State, t: nat)
    requires Good(c, st) && Enabled(st, Publish(t))
    ensures Good(c, Apply(c, st, Publish(t)))
  {
    hide FirstMatch, BucketGood;
    var st', th := Apply(c, st, Publish(t)), st.threads[t];
    var b := c.hash(th.ip) % |st.heads|;
    assert ThreadGood(c, st, th);
    forall x | 0 <= x < |st.heads| ensures BucketGood(c, st'.flows, st'.heads, st'.chains, st'.used, x) {
      if x == b {
        BucketGrows(c, st.flows, st.heads, st.chains, st.used, b, th.slot, st'.flows[th.slot]);
      } else {
        BucketKeeps(c, st.flows, st.heads, st.chains, st.used, x, th.slot, st'.flows[th.slot]);
        SameBucket(c, st'.flows, st.heads, st'.heads, st.chains, st'.chains, st.used, x);
      }
    }
    assert Holds(th, th.slot);
    forall u | 0 <= u < |st'.threads| ensures ThreadGood(c, st', st'.threads[u]) {
      if u != t {
        assert ThreadGood(c, st, st.threads[u]);
        assert !Holds(st.threads[u], th.slot);
      }
    }
  }

  lemma SameBucket(c: Config, flows: Slots, heads: seq<int>, heads': seq<int>, chains: seq<seq<nat>>,
      chains': seq<seq<nat>>, used: nat, b: nat)
    requires b < |heads| == |chains| == |heads'| == |chains'| && heads'[b] == heads[b] && chains'[b] == chains[b]
    requires BucketGood(c, flows, heads, chains, used, b)
    ensures BucketGood(c, flows, heads', chains', used, b)
  {
  }

  lemma StepGood(c: Config, st: State, e: Event)
    requires Good(c, st) && Enabled(st, e)
    ensures Good(c, Apply(c, st, e))
  {
    hide Good, Apply, Enabled;
    match e
    case Lookup(t, ip) => LookupGood(c, st, t, ip);
    case ScanList(t) => ScanGood(c, st, t);
    case Alloc(t) => AllocGood(c, st, t);
    case Fill(t) => FillGood(c, st, t);
    case Publish(t) => PublishGood(c, st, t);
  }

  /** All threads are idle at first, and the cache is as the initial filling left it. */
  ghost predicate Init(c: Config, st: State) {
    && |st.heads| > 0 && TableOk(st.flows, st.heads, st.chains, st.used, c.hash) &&
        Right(c.rs, StoredIn(st.flows, st.used))
    && (forall t :: 0 <= t < |st.threads| ==> st.threads[t].Idle?) && st.answers == []
  }

  lemma InitGood(c: Config, st: State)
    requires Init(c, st)
    ensures Good(c, st)
  {
    hide FirstMatch;
    var fs := StoredIn(st.flows, st.used);
    forall b | 0 <= b < |st.heads| ensures BucketGood(c, st.flows, st.heads, st.chains, st.used, b) {
      var s := st.chains[b];
      assert BucketOk(st.flows, st.heads[b], s, st.used, b, |st.heads|, c.hash);
      forall i | 0 <= i < |s| ensures RightSlot(c, st.flows, s[i]) {
        assert fs[s[i]] == Flow(st.flows[s[i]].key, st.flows[s[i]].entry);
      }
    }
  }

  ghost predicate Run(c: Config, run: seq<State>) {
    && run != [] && Init(c, run[0])
    && forall i :: 0 <= i < |run| - 1 ==> Next(c, run[i], run[i + 1])
  }

  ghost predicate Next(c: Config, st: State, st': State) {
    |st.heads| == |st.chains| > 0 && exists e :: Enabled(st, e) && st' == Apply(c, st, e)
  }

  lemma {:induction false} RunGood(c: Config, run: seq<State>, i: nat)
    requires Run(c, run) && i < |run|
    ensures Good(c, run[i])
    decreases i
  {
    hide Good, Apply, Enabled, Init;
    if i == 0 {
      InitGood(c, run[0]);
    } else {
      RunGood(c, run, i - 1);
      assert Next(c, run[i - 1], run[i]);
      var e :| Enabled(run[i - 1], e) && run[i] == Apply(c, run[i - 1], e);
      StepGood(c, run[i - 1], e);
    }
  }

  /** In every interleaving every answer is the first matching route of the list. */
  lemma AnswersAgree(c: Config, run: seq<State>, i: nat, j: nat)
    requires Run(c, run) && i < |run| && j < |run[i].answers|
    ensures run[i].answers[j].1 == FirstMatch(c.rs, run[i].answers[j].0)
  {
    RunGood(c, run, i);
  }
}
