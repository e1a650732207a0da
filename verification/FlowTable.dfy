/**
  The flow hash cache in memory: a store of entries linked into hash buckets.  A lookup through
  the cache finds the same route as the scan of the route list.
 */
module FlowTable {
  import opened Basics
  import opened L3fwdRoutes

  /** An entry of the store; -1 ends a chain. */
  datatype Slot = Slot(key: nat, next: int, entry: nat)

  type Slots = seq<Slot>

  function Next(s: seq<nat>, i: nat): (n: int)
    requires i < |s|
  {
    if i + 1 < |s| then s[i + 1] else -1
  }

  predicate LinkOk(flows: Slots, s: seq<nat>, i: nat)
    requires i < |s|
  {
    s[i] < |flows| && flows[s[i]].next == Next(s, i)
  }

  /** The chain from a bucket visits the slots in this order. */
  ghost predicate Chained(flows: Slots, head: int, s: seq<nat>) {
    && head == (if s == [] then -1 else s[0])
    && forall i :: 0 <= i < |s| ==> LinkOk(flows, s, i)
  }

  lemma {:induction false} ChainApart(flows: Slots, s: seq<nat>, i: nat, j: nat)
    requires i < j < |s| && forall k :: 0 <= k < |s| ==> LinkOk(flows, s, k)
    ensures s[i] != s[j]
    decreases |s| - j
  {
    assert LinkOk(flows, s, i) && LinkOk(flows, s, j);
    if j + 1 < |s| { ChainApart(flows, s, i + 1, j + 1); }
  }

  /** A chain that ends visits no slot twice, and so has at most as many slots as the store. */
  lemma ChainShort(flows: Slots, head: int, s: seq<nat>)
    requires Chained(flows, head, s)
    ensures |s| <= |flows|
  {
    forall i, j | 0 <= i < j < |s| ensures s[i] != s[j] { ChainApart(flows, s, i, j); }
    forall i | 0 <= i < |s| ensures s[i] < |flows| { assert LinkOk(flows, s, i); }
    NoRepeatsShort(s, |flows|);
  }

  /** Everything in the chain of a bucket was taken from the store and belongs to the bucket. */
  ghost predicate BucketOk(flows: Slots, head: int, s: seq<nat>, used: nat, b: nat, buckets: nat, hash: nat -> nat)
    requires buckets > 0
  {
    && Chained(flows, head, s)
    && forall i :: 0 <= i < |s| ==> s[i] < used && s[i] < |flows| && hash(flows[s[i]].key) % buckets == b
  }

  /** The chain after a new slot was put in front. */
  lemma ChainGrows(flows: Slots, head: int, s: seq<nat>, used: nat, b: nat, buckets: nat, hash: nat -> nat, slot: Slot)
    requires buckets > 0 && BucketOk(flows, head, s, used, b, buckets, hash) && used < |flows|
    requires slot.next == head && hash(slot.key) % buckets == b
    ensures BucketOk(flows[used := slot], used, [used] + s, used + 1, b, buckets, hash)
  {
    var flows', s' := flows[used := slot], [used] + s;
    forall i | 0 <= i < |s'|
        ensures LinkOk(flows', s', i) && s'[i] < used + 1 && hash(flows'[s'[i]].key) % buckets == b {
      if i > 0 { assert LinkOk(flows, s, i - 1) && s'[i] == s[i - 1]; }
    }
  }

  lemma ChainStays(flows: Slots, head: int, s: seq<nat>, used: nat, b: nat, buckets: nat, hash: nat -> nat, slot: Slot)
    requires buckets > 0 && BucketOk(flows, head, s, used, b, buckets, hash) && used < |flows|
    ensures BucketOk(flows[used := slot], head, s, used + 1, b, buckets, hash)
  {
    var flows' := flows[used := slot];
    forall i | 0 <= i < |s| ensures LinkOk(flows', s, i) { assert LinkOk(flows, s, i); }
  }

  /** The first n slots as flows. */
  ghost function StoredIn(flows: Slots, n: nat): (fs: seq<Flow>)
    requires n <= |flows|
    ensures |fs| == n && forall i :: 0 <= i < n ==> fs[i] == Flow(flows[i].key, flows[i].entry)
  {
    seq(n, i requires 0 <= i < n => Flow(flows[i].key, flows[i].entry))
  }

  /** The whole table: unused slots are clean, and used ones are in the chain of their bucket. */
  ghost predicate TableOk(flows: Slots, heads: seq<int>, chains: seq<seq<nat>>, used: nat, hash: nat -> nat)
    requires |heads| > 0
  {
    && |chains| == |heads| && used <= |flows|
    && (forall i :: used <= i < |flows| ==> flows[i].next == -1)
    && (forall b :: 0 <= b < |heads| ==> BucketOk(flows, heads[b], chains[b], used, b, |heads|, hash))
    && (forall i :: 0 <= i < used ==> InChain(flows, chains, i, hash))
  }

  predicate InChain(flows: Slots, chains: seq<seq<nat>>, i: nat, hash: nat -> nat)
    requires i < |flows| && |chains| > 0
  {
    i in chains[hash(flows[i].key) % |chains|]
  }

  /** The table after the next slot was filled and put in front of its bucket. */
  lemma TableGrows(flows: Slots, heads: seq<int>, chains: seq<seq<nat>>, used: nat, hash: nat -> nat, b: nat,
      slot: Slot)
    requires |heads| > 0 && TableOk(flows, heads, chains, used, hash) && used < |flows|
    requires b == hash(slot.key) % |heads| && slot.next == heads[b]
    ensures TableOk(flows[used := slot], heads[b := used], chains[b := [used] + chains[b]], used + 1, hash)
  {
    var flows', heads', chains' := flows[used := slot], heads[b := used], chains[b := [used] + chains[b]];
    forall x | 0 <= x < |heads'| ensures BucketOk(flows', heads'[x], chains'[x], used + 1, x, |heads'|, hash) {
      assert BucketOk(flows, heads[x], chains[x], used, x, |heads|, hash);
      if x == b {
        ChainGrows(flows, heads[x], chains[x], used, x, |heads|, hash, slot);
      } else {
        ChainStays(flows, heads[x], chains[x], used, x, |heads|, hash, slot);
      }
    }
    hide BucketOk;
    forall i | 0 <= i < used + 1 ensures InChain(flows', chains', i, hash) {
      if i < used { assert InChain(flows, chains, i, hash); }
    }
  }

  class Cache {
    const flows: array<Slot>
    const bucket: array<int>
    const hash: nat -> nat
    var nextFlow: nat
    ghost var chains: seq<seq<nat>>

    ghost predicate Valid()
      reads this, flows, bucket
    {
      bucket.Length > 0 && TableOk(flows[..], bucket[..], chains, nextFlow, hash)
    }

    function Bucket(key: nat): (b: nat)
      requires bucket.Length > 0
      ensures b < bucket.Length
    {
      hash(key) % bucket.Length
    }

    /** All flows of the cache, in the order of the store. */
    ghost function Stored(): (fs: seq<Flow>)
      reads `nextFlow, flows
      requires nextFlow <= flows.Length
    {
      StoredIn(flows[..], nextFlow)
    }

    constructor (flowCount: nat, bucketCount: nat, hash: nat -> nat)
      requires bucketCount > 0
      ensures Valid() && nextFlow == 0 && flows.Length == flowCount && fresh(flows) && fresh(bucket) &&
          this.hash == hash
      ensures bucket.Length == bucketCount && forall b :: 0 <= b < bucketCount ==> chains[b] == []
    {
      flows := new Slot[flowCount](i => Slot(0, -1, 0));
      bucket := new int[bucketCount](i => -1);
      this.hash := hash;
      nextFlow := 0;
      chains := seq(bucketCount, i => []);
    }

    /** Walk the chain of a bucket for a key. */
    method LookupFwdCache(key: nat) returns (found: int)
      requires Valid()
      ensures nextFlow <= flows.Length && (found == -1 <==> !HasKey(Stored(), key))
      ensures found != -1 ==> 0 <= found < nextFlow && flows[found].key == key
    {
      var b := Bucket(key);
      ghost var s := chains[b];
      assert BucketOk(flows[..], bucket[..][b], s, nextFlow, b, bucket.Length, hash);
      found := bucket[b];
      ghost var i := 0;
      while found != -1
        invariant 0 <= i <= |s| && found == (if i < |s| then s[i] else -1)
        invariant forall j :: 0 <= j < i ==> flows[..][s[j]].key != key
        decreases |s| - i
      {
        assert LinkOk(flows[..], s, i);
        if flows[found].key == key {
          assert Stored()[found].key == key;
          return;
        }
        found := flows[found].next;
        i := i + 1;
      }
      forall k | 0 <= k < nextFlow ensures Stored()[k].key != key {
        assert InChain(flows[..], chains, k, hash);
      }
    }

    /** Put a flow in front of its bucket, unless the store is full. */
    method InsertFwdCache(key: nat, entry: nat) returns (ok: bool)
      requires Valid()
      modifies `nextFlow, `chains, flows, bucket
      ensures Valid() && ok == (old(nextFlow) < flows.Length) && nextFlow <= flows.Length
      ensures Stored() == if ok then old(Stored()) + [Flow(key, entry)] else old(Stored())
    {
      hide TableOk;
      TableBounds(flows[..], bucket[..], chains, nextFlow, hash);
      if nextFlow >= flows.Length { return false; }
      var b, f := Bucket(key), nextFlow;
      nextFlow := nextFlow + 1;
      flows[f] := flows[f].(key := key, entry := entry);
      if bucket[b] != -1 { flows[f] := flows[f].(next := bucket[b]); }
      TableGrows(old(flows[..]), bucket[..], chains, f, hash, b, flows[f]);
      bucket[b] := f;
      chains := chains[b := [f] + chains[b]];
      assert flows[..] == old(flows[..])[f := flows[f]] && bucket[..] == old(bucket[..])[b := f];
      ok := true;
    }

    /** Fill the cache with the hosts of all routes before traffic starts. */
    method InitFwdHashCache(rs: Table)
      requires Valid() && nextFlow == 0
      modifies `nextFlow, `chains, flows, bucket
      ensures Valid() && Stored() == Warmed(rs, flows.Length)
    {
      hide HasKey, Warm, TableOk, Pow2;
      TableBounds(flows[..], bucket[..], chains, nextFlow, hash);
      assert Stored() == [];
      var r := 0;
      WarmStep(rs, 0, 0, flows.Length, Stored());
      while r < |rs|
        invariant 0 <= r <= |rs| && Valid() && nextFlow <= flows.Length
        invariant Warm(rs, r, 0, flows.Length, Stored()) == Warmed(rs, flows.Length)
      {
        var i, hosts := 0, rs[r].Hosts();
        while i < hosts
          invariant 0 <= i <= hosts == rs[r].Hosts() && Valid() && nextFlow <= flows.Length
          invariant Warm(rs, r, i, flows.Length, Stored()) == Warmed(rs, flows.Length)
        {
          var key := Host(rs[r], i);
          WarmStep(rs, r, i, flows.Length, Stored());
          var flow := LookupFwdCache(key);
          if flow != -1 { return; }
          var ok := InsertFwdCache(key, r);
          if !ok { return; }
          i := i + 1;
        }
        WarmStep(rs, r, i, flows.Length, Stored());
        r := r + 1;
      }
      WarmStep(rs, r, 0, flows.Length, Stored());
    }

    /** The route of a destination address, from the cache or else by a scan of the list, which is then cached. */
    method FindFwdDbEntry(rs: Table, dst: nat) returns (entry: Option<nat>)
      requires Valid() && Right(rs, Stored())
      modifies `nextFlow, `chains, flows, bucket
      ensures Valid() && Right(rs, Stored())
      ensures entry == FirstMatch(rs, dst) && nextFlow <= flows.Length && old(nextFlow) <= flows.Length
      ensures Stored() ==
          if HasKey(old(Stored()), dst) || entry.None? || old(nextFlow) == flows.Length then old(Stored())
          else old(Stored()) + [Flow(dst, entry.value)]
    {
      hide BucketOk, InChain, Pow2;
      var flow := LookupFwdCache(dst);
      if flow != -1 {
        assert Stored()[flow].key == dst;
        return Some(flows[flow].entry);
      }
      var k := 0;
      while k < |rs| && !rs[k].Matches(dst)
        invariant 0 <= k <= |rs| && FirstFrom(rs, dst, k) == FirstMatch(rs, dst)
      {
        k := k + 1;
      }
      entry := if k < |rs| then Some(k) else None;
      if entry.Some? {
        var ok := InsertFwdCache(dst, k);
      }
    }
  }

  lemma TableBounds(flows: Slots, heads: seq<int>, chains: seq<seq<nat>>, used: nat, hash: nat -> nat)
    requires |heads| > 0 && TableOk(flows, heads, chains, used, hash)
    ensures |chains| == |heads| && used <= |flows|
    ensures forall i :: used <= i < |flows| ==> flows[i].next == -1
  {
  }
}
