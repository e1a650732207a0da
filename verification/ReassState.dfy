/**
  The lock-free reassembler as a state machine.  Threads add fragments to shared hash map
  buckets, each an atomic word that holds the tail of a list of fragments and a summary of it;
  every step below makes at most one access to a shared word.  All other memory a step touches
  belongs to the thread: that this is so is proved, not assumed.
 */
module ReassState {
  import opened Basics
  import opened IpHeader
  import opened FragOrder
  import opened FragSort
  import opened FragExtract

  const EARLIEST_MAX := 0xFFFF_FFFF

  /** The contents of a bucket: list tail, received length, reassembled length bound, earliest arrival. */
  datatype Word = Word(tail: Option<nat>, part: nat, whole: nat, earliest: nat)

  const NULL_WORD := Word(None, 0, IP_OCTET_MAX, EARLIEST_MAX)

  /** The links between fragment records, by address. */
  type Links = map<nat, Option<nat>>

  /**
    What a thread is doing.  `list` is what the thread finds by following the links from the tail
    of its private list (that memory holds exactly this list is proved).  `version` counts the
    changes of the bucket that preceded its last load and serves only to state properties.
   */
  datatype Thread =
    | Idle
    | Redo(b: nat, frags: Word, head: nat, now: nat, dont: bool, list: seq<Frag>)
    | Loaded(b: nat, frags: Word, head: nat, now: nat, dont: bool, oldfl: Word, list: seq<Frag>, version: nat)
    | Taken(b: nat, newfl: Word, now: nat, list: seq<Frag>)
    | Extracting(b: nat, newfl: Word, now: nat, changed: bool, list: seq<Frag>)
    | GcLoaded(b: nat, now: nat, oldfl: Word, version: nat)
    | Sweeping(b: nat, newfl: Word, now: nat, kept: nat, list: seq<Frag>)
  {
    function List(): (s: seq<Frag>) { if Idle? || GcLoaded? then [] else list }
  }

  /** The fragments that will ever arrive, the number of buckets and the flow hash. */
  datatype Config = Config(universe: set<Frag>, buckets: nat, hash: Flow -> nat) {
    predicate Valid() {
      && buckets > 0
      && (forall a :: a in universe ==> a.Framed())
      && (forall a, b :: a in universe && b in universe && a.id == b.id ==> a == b)
    }

    function Bucket(f: Frag): (b: nat)
      requires buckets > 0
    {
      hash(f.flow) % buckets
    }
  }

  /**
    `chains` is what is found by following the links from the tail of each bucket, as proved;
    `versions` counts the changes of each bucket.
   */
  datatype State = State(words: seq<Word>, links: Links, threads: seq<Thread>, waiting: set<Frag>,
                         out: seq<seq<Frag>>, freed: seq<Frag>, chains: seq<seq<Frag>>, versions: seq<nat>)

  datatype Event =
    | Submit(t: nat, f: Frag)
    | Load(t: nat)
    | Publish(t: nat)
    | Take(t: nat)
    | SortList(t: nat)
    | ExtractOne(t: nat)
    | Finish(t: nat)
    | GcLoad(t: nat, b: nat, now: nat)
    | GcTake(t: nat)
    | Keep(t: nat, earliest: nat)
    | Drop(t: nat)
    | GcEnd(t: nat)

  function Min(a: int, b: int): (m: int) { if a < b then a else b }

  function TailOf(s: seq<Frag>): (id: Option<nat>) { if s == [] then None else Some(s[0].id) }

  function HeadOf(s: seq<Frag>): (id: nat)
    requires s != []
  {
    s[|s| - 1].id
  }

  /** The word that results from putting a private list in front of a bucket's list. */
  function NewWord(oldfl: Word, frags: Word, now: nat): (w: Word) {
    Word(frags.tail,
         Min(IP_OCTET_MAX, oldfl.part + frags.part),
         Min(oldfl.whole, frags.whole),
         if oldfl.tail.None? then frags.earliest else Earliest(oldfl.earliest, frags.earliest, now))
  }

  /** The lengths do not look as if a datagram were complete, or reassembly has just been tried in vain. */
  predicate WaitForMore(th: Thread)
    requires th.Loaded?
  {
    var newfl := NewWord(th.oldfl, th.frags, th.now);
    newfl.part < newfl.whole || th.dont
  }

  /** One fragment added to a summary. */
  function Count(w: Word, f: Frag, now: nat): (r: Word) {
    w.(part := Min(IP_OCTET_MAX, w.part + f.oct), whole := Min(w.whole, f.Whole()),
       earliest := Earliest(w.earliest, f.arrival, now))
  }

  function Recount(w: Word, s: seq<Frag>, now: nat): (r: Word)
    decreases |s|
  {
    if s == [] then w else Recount(Count(w, s[0], now), s[1..], now)
  }

  /** The summary to write back after an attempt: recounted, on top of the old counts, only if something was cut out. */
  function Update(th: Thread): (w: Word)
    requires th.Extracting?
  {
    var w := th.newfl.(tail := TailOf(th.list));
    if th.changed then Recount(w.(earliest := th.now), th.list, th.now) else w
  }

  /** All links of a list rewritten. */
  function Link(links: Links, s: seq<Frag>): (r: Links)
    decreases |s|
  {
    if s == [] then links else Link(links, s[1..])[s[0].id := TailOf(s[1..])]
  }

  /** The link in front of position k led to k and now leads to m. */
  function Bypass(links: Links, s: seq<Frag>, k: nat, m: nat): (r: Links)
    requires k <= m <= |s|
  {
    if k == 0 then links else links[s[k - 1].id := TailOf(s[m..])]
  }

  predicate Enabled(c: Config, st: State, e: Event)
    requires c.Valid()
  {
    && e.t < |st.threads|
    && var th := st.threads[e.t];
       match e
       case Submit(_, f) => th.Idle? && f in st.waiting
       case Load(_) => th.Redo? && th.b < |st.words|
       case Publish(_) => th.Loaded? && th.b < |st.words| && WaitForMore(th)
       case Take(_) => th.Loaded? && th.b < |st.words| && !WaitForMore(th)
       case SortList(_) => th.Taken?
       case ExtractOne(_) => th.Extracting? && Extract(th.list).Found?
       case Finish(_) => th.Extracting? && Extract(th.list).NotFound?
       case GcLoad(_, b, _) => th.Idle? && b < |st.words| && st.words[b].tail.Some?
       case GcTake(_) => th.GcLoaded? && th.b < |st.words|
       case Keep(_, _) => th.Sweeping? && th.kept < |th.list|
       case Drop(_) => th.Sweeping? && th.kept < |th.list|
       case GcEnd(_) => th.Sweeping? && th.kept == |th.list|
  }

  function WithThread(st: State, t: nat, th: Thread): (r: State)
    requires t < |st.threads|
  {
    st.(threads := st.threads[t := th])
  }

  function WithBucket(st: State, b: nat, w: Word, s: seq<Frag>): (r: State)
    requires b < |st.words| == |st.chains| == |st.versions|
  {
    st.(words := st.words[b := w], chains := st.chains[b := s], versions := st.versions[b := st.versions[b] + 1])
  }

  /** The lists of the auxiliary state have the right lengths. */
  predicate Shaped(c: Config, st: State) {
    |st.words| == |st.chains| == |st.versions| == c.buckets
  }

  /** A new fragment is a private list of one. */
  function DoSubmit(c: Config, st: State, t: nat, f: Frag): (r: State)
    requires c.Valid() && t < |st.threads|
  {
    var th := Redo(c.Bucket(f), Word(Some(f.id), f.oct, f.Whole(), f.arrival), f.id, f.arrival, false, [f]);
    WithThread(st, t, th).(waiting := st.waiting - {f}, links := st.links[f.id := None])
  }

  /** Load the bucket and put the private list in front of what was found there. */
  function DoLoad(st: State, t: nat): (r: State)
    requires t < |st.threads| && st.threads[t].Redo? && st.threads[t].b < |st.words| == |st.versions|
  {
    var th := st.threads[t];
    var oldfl := st.words[th.b];
    WithThread(st, t, Loaded(th.b, th.frags, th.head, th.now, th.dont &&
        oldfl.tail.None?, oldfl, th.list, st.versions[th.b]))
      .(links := st.links[th.head := oldfl.tail])
  }

  /** A compare-and-swap that fails: undo the link and start over. */
  function DoRetry(st: State, t: nat): (r: State)
    requires t < |st.threads| && st.threads[t].Loaded?
  {
    var th := st.threads[t];
    WithThread(st, t, Redo(th.b, th.frags, th.head, th.now, th.dont, th.list)).(links := st.links[th.head := None])
  }

  /** Compare-and-swap the bucket from the loaded word to the extended list. */
  function DoPublish(st: State, t: nat): (r: State)
    requires t < |st.threads| && st.threads[t].Loaded? && st.threads[t].b < |st.words| == |st.chains| == |st.versions|
  {
    var th := st.threads[t];
    if st.words[th.b] == th.oldfl then
      WithThread(WithBucket(st, th.b, NewWord(th.oldfl, th.frags, th.now), th.list + st.chains[th.b]), t, Idle)
    else DoRetry(st, t)
  }

  /** Compare-and-swap the bucket from the loaded word to the empty one, which takes its list. */
  function DoTake(st: State, t: nat): (r: State)
    requires t < |st.threads| && st.threads[t].Loaded? && st.threads[t].b < |st.words| == |st.chains| == |st.versions|
  {
    var th := st.threads[t];
    if st.words[th.b] == th.oldfl then
      WithThread(WithBucket(st, th.b, NULL_WORD, []), t,
                 Taken(th.b, NewWord(th.oldfl, th.frags, th.now), th.now, th.list + st.chains[th.b]))
    else DoRetry(st, t)
  }

  function DoSort(st: State, t: nat): (r: State)
    requires t < |st.threads| && st.threads[t].Taken?
  {
    var th := st.threads[t];
    var s := Sort(th.list, th.now);
    WithThread(st, t, Extracting(th.b, th.newfl, th.now, false, s)).(links := Link(st.links, s))
  }

  /** Cut one complete datagram out of the private list and send it. */
  function DoExtract(st: State, t: nat): (r: State)
    requires t < |st.threads| && st.threads[t].Extracting? && Extract(st.threads[t].list).Found?
  {
    var th := st.threads[t];
    var p := Locate(th.list, 0);
    var d := th.list[p.from..p.to];
    WithThread(st, t, Extracting(th.b, th.newfl, th.now, true, Without(th.list, p.from, p.to)))
      .(out := st.out + [d], links := Bypass(st.links, th.list, p.from, p.to)[HeadOf(d) := None])
  }

  /** No complete datagram is left: add the remaining fragments back, if there are any. */
  function DoFinish(st: State, t: nat): (r: State)
    requires t < |st.threads| && st.threads[t].Extracting?
  {
    var th := st.threads[t];
    if th.list == [] then WithThread(st, t, Idle)
    else WithThread(st, t, Redo(th.b, Update(th), HeadOf(th.list), th.now, !th.changed, th.list))
  }

  function DoGcLoad(st: State, t: nat, b: nat, now: nat): (r: State)
    requires t < |st.threads| && b < |st.words| == |st.versions|
  {
    WithThread(st, t, GcLoaded(b, now, st.words[b], st.versions[b]))
  }

  /** Take a bucket for garbage collection and sort its list; a failed compare-and-swap gives up this round. */
  function DoGcTake(st: State, t: nat): (r: State)
    requires t < |st.threads| && st.threads[t].GcLoaded? && st.threads[t].b < |st.words| == |st.chains| == |st.versions|
  {
    var th := st.threads[t];
    if st.words[th.b] == th.oldfl then
      var s := Sort(st.chains[th.b], th.now);
      WithThread(WithBucket(st, th.b, NULL_WORD, []), t,
          Sweeping(th.b, th.oldfl.(tail := TailOf(s), earliest := th.now), th.now, 0, s))
        .(links := Link(st.links, s))
    else WithThread(st, t, Idle)
  }

  /**
    Keep the flow at the current position; its foremost fragment is counted once more.  The earliest
    arrival of the flow is any time.
   */
  function DoKeep(st: State, t: nat, earliest: nat): (r: State)
    requires t < |st.threads| && st.threads[t].Sweeping? && st.threads[t].kept < |st.threads[t].list|
  {
    var th := st.threads[t];
    var m := RunEnd(th.list, th.kept);
    WithThread(st, t, th.(newfl := Count(th.newfl, th.list[m - 1],
        th.now).(earliest := Earliest(th.newfl.earliest, earliest, th.now)), kept := m))
  }

  /** Free the whole flow at the current position. */
  function DoDrop(st: State, t: nat): (r: State)
    requires t < |st.threads| && st.threads[t].Sweeping? && st.threads[t].kept < |st.threads[t].list|
  {
    var th := st.threads[t];
    var k, m := th.kept, RunEnd(th.list, th.kept);
    var s := Without(th.list, k, m);
    WithThread(st, t, th.(newfl := th.newfl.(tail := TailOf(s)), list := s))
      .(freed := st.freed + th.list[k..m], links := Bypass(st.links, th.list, k, m))
  }

  function DoGcEnd(st: State, t: nat): (r: State)
    requires t < |st.threads| && st.threads[t].Sweeping?
  {
    var th := st.threads[t];
    if th.list == [] then WithThread(st, t, Idle)
    else WithThread(st, t, Redo(th.b, th.newfl, HeadOf(th.list), th.now, false, th.list))
  }

  function Apply(c: Config, st: State, e: Event): (r: State)
    requires c.Valid() && Shaped(c, st) && Enabled(c, st, e)
  {
    match e
    case Submit(t, f) => DoSubmit(c, st, t, f)
    case Load(t) => DoLoad(st, t)
    case Publish(t) => DoPublish(st, t)
    case Take(t) => DoTake(st, t)
    case SortList(t) => DoSort(st, t)
    case ExtractOne(t) => DoExtract(st, t)
    case Finish(t) => DoFinish(st, t)
    case GcLoad(t, b, now) => DoGcLoad(st, t, b, now)
    case GcTake(t) => DoGcTake(st, t)
    case Keep(t, earliest) => DoKeep(st, t, earliest)
    case Drop(t) => DoDrop(st, t)
    case GcEnd(t) => DoGcEnd(st, t)
  }

  ghost predicate Init(c: Config, st: State) {
    && c.Valid() && Shaped(c, st)
    && (forall b :: 0 <= b < c.buckets ==> st.words[b] == NULL_WORD && st.chains[b] == [])
    && (forall t :: 0 <= t < |st.threads| ==> st.threads[t] == Idle)
    && st.waiting == c.universe && st.out == [] && st.freed == []
  }

  ghost predicate Next(c: Config, st: State, st': State) {
    c.Valid() && Shaped(c, st) && exists e :: Enabled(c, st, e) && st' == Apply(c, st, e)
  }

  /** A run of the machine: any interleaving of the steps of any threads. */
  ghost predicate Run(c: Config, run: seq<State>) {
    && run != [] && Init(c, run[0])
    && forall i :: 0 <= i < |run| - 1 ==> Next(c, run[i], run[i + 1])
  }
}
