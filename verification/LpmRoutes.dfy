/**
  Sequences of prefixes.  The reference is a search through the list for the longest match; the
  trie agrees with it exactly if every insertion finds the trie in order.
 */
module LpmRoutes {
  import opened Basics
  import opened L3fwdRoutes
  import opened LpmTrie
  import opened LpmCells
  import opened LpmLongest
  import opened LpmInsert

  /** The addresses agree in their first bits. */
  predicate SamePrefix(a: nat, b: nat, depth: nat)
    requires depth <= 32
  {
    Div(a, Pow2(32 - depth)) == Div(b, Pow2(32 - depth))
  }

  datatype Prefix = Prefix(ip: nat, depth: nat, port: int) {
    predicate InRange() { ip < ADDRESSES && depth <= 32 }

    /** It ends at a level boundary. */
    predicate Valid() { InRange() && Aligned(depth) }
  }

  /** The trie at the beginning: the first level, without next hops. */
  ghost predicate Initial(t: Trie) {
    && (forall p :: p in t <==> p.l == 0 && p.v < FIRST)
    && (forall p :: p in t ==> t[p] == Empty)
  }

  lemma InitialRepresents(t: Trie)
    requires Initial(t)
    ensures Represents(t, map[])
  {
    forall q: Pos ensures InRange(q) && q.l == 0 <==> q.l == 0 && q.v < FIRST {}
    assert forall q :: !RouteBelow(map[], q);
    hide InRange, RouteBelow;
  }

  ghost predicate AllValid(ps: seq<Prefix>) { forall i :: 0 <= i < |ps| ==> ps[i].Valid() }

  /** The trie after a sequence of insertions, each with some room for tables. */
  function Build(t: Trie, ps: seq<Prefix>, rooms: seq<nat>): (r: Trie)
    requires |rooms| == |ps| && forall i :: 0 <= i < |ps| ==> ps[i].InRange()
    decreases |ps|
  {
    if ps == [] then t else
      var n := |ps| - 1;
      assert ps[n].InRange();
      Insert(Build(t, ps[..n], rooms[..n]), ps[n].ip, ps[n].port, ps[n].depth, rooms[n])
  }

  /** The prefixes by position. */
  function RoutesOf(ps: seq<Prefix>): (r: Routes)
    requires forall i :: 0 <= i < |ps| ==> ps[i].Valid()
    decreases |ps|
  {
    if ps == [] then map[] else
      var n := |ps| - 1;
      assert ps[n].Valid();
      RoutesOf(ps[..n])[At(ps[n].ip, Level(ps[n].depth)) := Entry(ps[n].depth, ps[n].port)]
  }

  /** The longest match by a search through the list; of equally long ones the last. */
  function Linear(ps: seq<Prefix>, x: nat): (k: Option<nat>)
    requires forall i :: 0 <= i < |ps| ==> ps[i].Valid()
    ensures k.Some? ==> k.value < |ps|
    decreases |ps|
  {
    if ps == [] then None else
      var n := |ps| - 1;
      assert ps[n].Valid();
      var k := Linear(ps[..n], x);
      if SamePrefix(ps[n].ip, x, ps[n].depth) && (k.None? || ps[k.value].depth <= ps[n].depth) then Some(n) else k
  }

  function LinearPort(ps: seq<Prefix>, x: nat): (a: Option<int>)
    requires forall i :: 0 <= i < |ps| ==> ps[i].Valid()
  {
    var k := Linear(ps, x);
    if k.Some? then Some(ps[k.value].port) else None
  }

  /** The search finds a match if there is one, and none that matches is longer, or as long and later. */
  lemma {:induction false} LinearIs(ps: seq<Prefix>, x: nat)
    requires AllValid(ps)
    ensures var k := Linear(ps, x);
            && (k.None? ==> forall i :: 0 <= i < |ps| ==> !SamePrefix(ps[i].ip, x, ps[i].depth))
            && (k.Some? ==> SamePrefix(ps[k.value].ip, x, ps[k.value].depth)
                            && forall i :: 0 <= i < |ps| && SamePrefix(ps[i].ip, x, ps[i].depth) ==>
                                 ps[i].depth < ps[k.value].depth || (ps[i].depth == ps[k.value].depth && i <= k.value))
    decreases |ps|
  {
    hide SamePrefix;
    if ps != [] {
      var n := |ps| - 1;
      LinearIs(ps[..n], x);
      assert forall i :: 0 <= i < n ==> ps[..n][i] == ps[i];
    }
  }

  /** The routes of a list lead to the same answers as the search. */
  lemma {:induction false} LongestIsLinear(ps: seq<Prefix>, x: nat)
    requires AllValid(ps)
    ensures Fits(RoutesOf(ps))
    ensures var k := Linear(ps, x);
        Longest(RoutesOf(ps), At(x, 4)) == if k.Some? then Hop(ps[k.value].depth, ps[k.value].port) else Empty
    decreases |ps|
  {
    hide SamePrefix, Longest, Fits, Fresh, At, Aligned;
    if ps == [] {
      NoRoutes(x);
    } else {
      var n := |ps| - 1;
      var r, p := RoutesOf(ps[..n]), ps[n];
      LongestIsLinear(ps[..n], x);
      AddPrefix(r, p);
      LongestAdd(r, At(p.ip, Level(p.depth)), Entry(p.depth, p.port), At(x, 4));
      UnderAt(x, 4, At(p.ip, Level(p.depth)));
      PrefixCovers(p.ip, p.depth, x);
    }
  }

  lemma NoRoutes(x: nat)
    ensures Fits(map[]) && Longest(map[], At(x, 4)) == Empty
  {
    LongestIs(map[], x, 4);
  }

  lemma AddPrefix(r: Routes, p: Prefix)
    requires Fits(r) && p.Valid()
    ensures var q, e := At(p.ip, Level(p.depth)), Entry(p.depth, p.port);
            Target(p.ip, p.depth) == q && Fresh(r, q, e) && Fits(r[q := e])
  {
    FullFresh(r, p.ip, Level(p.depth), p.port);
    FitsAdd(r, At(p.ip, Level(p.depth)), Entry(p.depth, p.port));
  }

  lemma BestIsLinear(ps: seq<Prefix>, x: nat)
    requires AllValid(ps)
    ensures Best(RoutesOf(ps), x) == LinearPort(ps, x)
  {
    LongestIsLinear(ps, x);
  }

  /** For an aligned prefix, matching is being below its position. */
  lemma PrefixCovers(p: nat, depth: nat, ip: nat)
    requires Aligned(depth)
    ensures SamePrefix(p, ip, depth) <==> Covers(At(p, Level(depth)), ip)
  {
    Powers();
  }

  /** The k-th insertion finds the trie in order. */
  ghost predicate CleanAt(ps: seq<Prefix>, k: nat)
    requires k < |ps| && AllValid(ps)
  {
    Clean(RoutesOf(ps[..k]), ps[k].ip, ps[k].depth)
  }

  ghost predicate CleanAll(ps: seq<Prefix>)
    requires AllValid(ps)
  {
    forall k :: 0 <= k < |ps| ==> CleanAt(ps, k)
  }

  lemma {:induction false} BuildRepresents(t: Trie, ps: seq<Prefix>, rooms: seq<nat>)
    requires Initial(t) && |rooms| == |ps| && AllValid(ps) && (forall i :: 0 <= i < |ps| ==> rooms[i] >= 4) &&
        CleanAll(ps)
    ensures Represents(Build(t, ps, rooms), RoutesOf(ps))
    decreases |ps|
  {
    hide Represents, Clean, Fits, Fresh, Insert, Target, At;
    if ps == [] {
      InitialRepresents(t);
    } else {
      var n := |ps| - 1;
      assert CleanAt(ps, n);
      CleanPrefix(ps, n);
      BuildRepresents(t, ps[..n], rooms[..n]);
      LongestIsLinear(ps[..n], 0);
      AddPrefix(RoutesOf(ps[..n]), ps[n]);
      AddFresh(Build(t, ps[..n], rooms[..n]), RoutesOf(ps[..n]), ps[n].ip, ps[n].port, ps[n].depth, rooms[n]);
    }
  }

  lemma CleanPrefix(ps: seq<Prefix>, n: nat)
    requires n <= |ps| && AllValid(ps) && CleanAll(ps)
    ensures CleanAll(ps[..n])
  {
    hide Clean;
    forall k | 0 <= k < n ensures CleanAt(ps[..n], k) {
      assert CleanAt(ps, k) && ps[..n][..k] == ps[..k];
    }
  }

  /** The trie answers as the search does. */
  ghost predicate AnswersAs(t: Trie, ps: seq<Prefix>)
    requires AllValid(ps)
  {
    forall x: nat :: x < ADDRESSES ==> Lookup(t, x) == LinearPort(ps, x)
  }

  lemma AnswersIff(t: Trie, ps: seq<Prefix>)
    requires AllValid(ps)
    ensures AnswersAs(t, ps) <==> AllLongest(t, RoutesOf(ps))
  {
    hide Lookup, LinearPort, Best, RoutesOf;
    forall x: nat ensures Best(RoutesOf(ps), x) == LinearPort(ps, x) { BestIsLinear(ps, x); }
  }

  /** After clean insertions, with room for the tables, a lookup returns what the search returns. */
  lemma BuildRight(t: Trie, ps: seq<Prefix>, rooms: seq<nat>)
    requires Initial(t) && |rooms| == |ps| && AllValid(ps) && (forall i :: 0 <= i < |ps| ==> rooms[i] >= 4) &&
        CleanAll(ps)
    ensures AnswersAs(Build(t, ps, rooms), ps)
  {
    hide Represents, Lookup, Best, AnswersAs, RoutesOf, Build, CleanAll;
    BuildRepresents(t, ps, rooms);
    AnswersIff(Build(t, ps, rooms), ps);
    forall x: nat | x < ADDRESSES ensures Lookup(Build(t, ps, rooms), x) == Best(RoutesOf(ps), x) {
      LookupBest(Build(t, ps, rooms), RoutesOf(ps), x);
    }
  }

  /** The order of clean insertions does not matter. */
  lemma OrderFree(t: Trie, ps: seq<Prefix>, rooms: seq<nat>, qs: seq<Prefix>, rooms': seq<nat>)
    requires Initial(t) && |rooms| == |ps| && AllValid(ps) && (forall i :: 0 <= i < |ps| ==> rooms[i] >= 4) &&
        CleanAll(ps)
    requires |rooms'| == |qs| && AllValid(qs) && (forall i :: 0 <= i < |qs| ==> rooms'[i] >= 4) && CleanAll(qs)
    requires RoutesOf(ps) == RoutesOf(qs)
    ensures Build(t, ps, rooms) == Build(t, qs, rooms')
  {
    hide Represents, RoutesOf, Build, CleanAll;
    BuildRepresents(t, ps, rooms);
    BuildRepresents(t, qs, rooms');
    OneTrie(Build(t, ps, rooms), Build(t, qs, rooms'), RoutesOf(ps));
  }

  ghost predicate AnswersAt(t: Trie, ps: seq<Prefix>, rooms: seq<nat>, k: nat)
    requires |rooms| == |ps| && AllValid(ps) && k <= |ps|
  {
    AnswersAs(Build(t, ps[..k], rooms[..k]), ps[..k])
  }

  ghost predicate PortsDiffer(ps: seq<Prefix>) { forall i, j :: 0 <= i < j < |ps| ==> ps[i].port != ps[j].port }

  lemma {:induction false} RoutePorts(ps: seq<Prefix>, q: Pos) returns (k: nat)
    requires AllValid(ps) && q in RoutesOf(ps)
    ensures k < |ps| && q == At(ps[k].ip, Level(ps[k].depth)) && RoutesOf(ps)[q] == Entry(ps[k].depth, ps[k].port)
    decreases |ps|
  {
    hide At;
    var n := |ps| - 1;
    if q == At(ps[n].ip, Level(ps[n].depth)) { k := n; } else { k := RoutePorts(ps[..n], q); }
  }

  lemma PortsNew(ps: seq<Prefix>, k: nat)
    requires AllValid(ps) && PortsDiffer(ps) && k < |ps|
    ensures forall q :: q in RoutesOf(ps[..k]) ==> RoutesOf(ps[..k])[q].port != ps[k].port
  {
    hide RoutesOf, At;
    var r := RoutesOf(ps[..k]);
    forall q | q in r ensures r[q].port != ps[k].port { var i := RoutePorts(ps[..k], q); }
  }

  /** The first insertion that is not clean spoils some answer, if the ports differ. */
  lemma UncleanWrong(t: Trie, ps: seq<Prefix>, rooms: seq<nat>, k: nat)
    requires Initial(t) && |rooms| == |ps| && AllValid(ps) && (forall i :: 0 <= i < |ps| ==> rooms[i] >= 4) &&
        PortsDiffer(ps)
    requires k < |ps| && CleanAll(ps[..k]) && !CleanAt(ps, k)
    ensures !AnswersAt(t, ps, rooms, k + 1)
  {
    hide Represents, AnswersAs, RoutesOf, AllLongest, CleanAll, Clean, Build, PortsDiffer, Initial, Insert, Fits, At;
    PortsNew(ps, k);
    BuildRepresents(t, ps[..k], rooms[..k]);
    LongestIsLinear(ps[..k], 0);
    UncleanInsert(Build(t, ps[..k], rooms[..k]), RoutesOf(ps[..k]), ps[k], rooms[k]);
    OneMore(t, ps, rooms, k);
    AnswersIff(Build(t, ps[..k + 1], rooms[..k + 1]), ps[..k + 1]);
  }

  lemma UncleanInsert(t: Trie, r: Routes, p: Prefix, room: nat)
    requires Represents(t, r) && Fits(r) && p.Valid() && room >= 4 && !Clean(r, p.ip, p.depth) &&
        forall q :: q in r ==> r[q].port != p.port
    ensures !AllLongest(Insert(t, p.ip, p.port, p.depth, room), r[At(p.ip, Level(p.depth)) := Entry(p.depth, p.port)])
  {
    hide Represents, Fits, Fresh, Insert, Target, At, AllLongest, Clean, Proper;
    AddPrefix(r, p);
    CleanProper(r, p.ip, p.port, p.depth);
    FreshRightIff(t, r, p.ip, p.port, p.depth, room);
  }

  lemma OneMore(t: Trie, ps: seq<Prefix>, rooms: seq<nat>, k: nat)
    requires |rooms| == |ps| && AllValid(ps) && k < |ps|
    ensures Build(t, ps[..k + 1], rooms[..k + 1]) == Insert(Build(t, ps[..k], rooms[..k]), ps[k].ip, ps[k].port,
        ps[k].depth, rooms[k])
    ensures RoutesOf(ps[..k + 1]) == RoutesOf(ps[..k])[At(ps[k].ip, Level(ps[k].depth)) := Entry(ps[k].depth,
        ps[k].port)]
  {
    hide Insert, At;
    assert ps[..k + 1][..k] == ps[..k] && rooms[..k + 1][..k] == rooms[..k];
  }

  /**
    All answers are right after every insertion of a list, whose ports differ, if and only if all
    insertions are clean.
   */
  lemma SequenceRightIff(t: Trie, ps: seq<Prefix>, rooms: seq<nat>)
    requires Initial(t) && |rooms| == |ps| && AllValid(ps) && (forall i :: 0 <= i < |ps| ==> rooms[i] >= 4) &&
        PortsDiffer(ps)
    ensures (forall k :: 0 <= k <= |ps| ==> AnswersAt(t, ps, rooms, k)) <==> CleanAll(ps)
  {
    hide AnswersAs, CleanAt, Build;
    if CleanAll(ps) {
      forall k | 0 <= k <= |ps| ensures AnswersAt(t, ps, rooms, k) {
        CleanPrefix(ps, k);
        BuildRight(t, ps[..k], rooms[..k]);
      }
    } else {
      var k := FirstUnclean(ps);
      UncleanWrong(t, ps, rooms, k);
    }
  }

  lemma {:induction false} FirstUnclean(ps: seq<Prefix>) returns (k: nat)
    requires AllValid(ps) && !CleanAll(ps)
    ensures k < |ps| && !CleanAt(ps, k) && CleanAll(ps[..k])
    decreases |ps|
  {
    hide Clean, RoutesOf;
    var n := |ps| - 1;
    if CleanAll(ps[..n]) {
      k := n;
      forall i | 0 <= i < n ensures CleanAt(ps, i) { assert CleanAt(ps[..n], i) && ps[..n][..i] == ps[..i]; }
    } else {
      k := FirstUnclean(ps[..n]);
      assert ps[..n][..k] == ps[..k];
    }
  }

  /** No address matches two of the prefixes. */
  ghost predicate Disjoint(ps: seq<Prefix>)
    requires forall i :: 0 <= i < |ps| ==> ps[i].Valid()
  {
    forall i, j :: 0 <= i < j < |ps| ==> NoneInBoth(ps[i], ps[j])
  }

  ghost predicate NoneInBoth(p: Prefix, q: Prefix)
    requires p.Valid() && q.Valid()
  {
    forall ip: nat :: ip < ADDRESSES ==> !(SamePrefix(p.ip, ip, p.depth) && SamePrefix(q.ip, ip, q.depth))
  }

  /** Prefixes without a common address have no common address below their nodes. */
  lemma NoneBelowBoth(p: Prefix, q: Prefix, x: nat)
    requires p.Valid() && q.Valid() && NoneInBoth(p, q) && x < ADDRESSES
    ensures !(Covers(At(p.ip, Level(p.depth)), x) && Covers(At(q.ip, Level(q.depth)), x))
  {
    PrefixCovers(p.ip, p.depth, x);
    PrefixCovers(q.ip, q.depth, x);
  }

  /** Below a new prefix is no route, if the prefixes are disjoint. */
  lemma RouteApart(ps: seq<Prefix>, k: nat, q: Pos, x: nat)
    requires AllValid(ps) && Disjoint(ps) && k < |ps| && q in RoutesOf(ps[..k]) && x < ADDRESSES &&
        Covers(At(ps[k].ip, Level(ps[k].depth)), x)
    ensures !Covers(q, x)
  {
    hide RoutesOf, Covers, At;
    var i := RoutePorts(ps[..k], q);
    NoneBelowBoth(ps[i], ps[k], x);
  }

  /** Insertions of disjoint prefixes are clean. */
  lemma DisjointClean(ps: seq<Prefix>)
    requires AllValid(ps) && Disjoint(ps)
    ensures CleanAll(ps)
  {
    forall k | 0 <= k < |ps| ensures CleanAt(ps, k) {
      var r, p, l := RoutesOf(ps[..k]), ps[k], Level(ps[k].depth);
      LongestIsLinear(ps[..k], 0);
      AddPrefix(r, p);
      forall j | 0 <= j < l ensures Longest(r, At(p.ip, j)) == Empty { NoneAbove(ps, k, j); }
      forall x: nat | x < ADDRESSES && Covers(At(p.ip, l), x)
          ensures !RouteBelow(r, At(x, Reach(l))) { NoneBelow(ps, k, x); }
      hide Covers, At, RoutesOf, RouteBelow, Longest, Fits, Fresh;
    }
  }

  lemma NoneAbove(ps: seq<Prefix>, k: nat, j: nat)
    requires AllValid(ps) && Disjoint(ps) && k < |ps| && j <= 4
    ensures Longest(RoutesOf(ps[..k]), At(ps[k].ip, j)) == Empty
  {
    hide RoutesOf, At, Longest, Disjoint;
    var x := ps[k].ip;
    LongestIs(RoutesOf(ps[..k]), x, j);
    forall i | 0 <= i <= j ensures At(x, i) !in RoutesOf(ps[..k]) {
      if At(x, i) in RoutesOf(ps[..k]) { RouteApart(ps, k, At(x, i), x); }
    }
  }

  lemma NoneBelow(ps: seq<Prefix>, k: nat, x: nat)
    requires AllValid(ps) && Disjoint(ps) && k < |ps| && x < ADDRESSES && Covers(At(ps[k].ip, Level(ps[k].depth)), x)
    ensures !RouteBelow(RoutesOf(ps[..k]), At(x, Reach(Level(ps[k].depth))))
  {
    hide RoutesOf, Disjoint, At, Base;
    var r, l := RoutesOf(ps[..k]), Level(ps[k].depth);
    LongestIsLinear(ps[..k], 0);
    if RouteBelow(r, At(x, Reach(l))) {
      var q :| q in r && Reach(l) < q.l && Under(q, At(x, Reach(l)));
      CoversUp(Base(q), x, l, Reach(l));
      CoversBase(q);
      RouteApart(ps, k, q, Base(q));
    }
  }

  /**
    Refinement: after any insertions of disjoint prefixes that end at a level boundary, with room
    for the tables, a lookup returns the port of the prefix that covers the address, and nothing
    if there is none.
   */
  lemma TrieRefines(t: Trie, ps: seq<Prefix>, rooms: seq<nat>, ip: nat)
    requires Initial(t) && |rooms| == |ps| && (forall i :: 0 <= i < |ps| ==> ps[i].Valid() && rooms[i] >= 4) &&
        Disjoint(ps)
    requires ip < ADDRESSES
    ensures var a := Lookup(Build(t, ps, rooms), ip);
            && (forall k :: 0 <= k < |ps| && SamePrefix(ps[k].ip, ip, ps[k].depth) ==> a == Some(ps[k].port))
            && ((forall k :: 0 <= k < |ps| ==> !SamePrefix(ps[k].ip, ip, ps[k].depth)) ==> a == None)
  {
    hide SamePrefix, Build, Lookup, CleanAll, Linear;
    DisjointClean(ps);
    BuildRight(t, ps, rooms);
    LinearIs(ps, ip);
    forall k | 0 <= k < |ps| && SamePrefix(ps[k].ip, ip, ps[k].depth) ensures Linear(ps, ip) == Some(k) {}
  }

  /** Two addresses of one prefix that are a node of the target's level apart. */
  lemma GroupWitness(ip: nat, g: nat, s: nat, n: nat, all: nat) returns (base: nat)
    requires g > 0 && s > 0 && 2 * s <= g && ip < all == n * g
    ensures base + s < all && Div(base, g) == Div(ip, g) && Div(base + s, g) == Div(ip, g)
    ensures Div(base + s, s) == Div(base, s) + 1
  {
    DivDef(ip, g);
    var q := ip / g;
    base := q * g;
    if q >= n { MulLe(n, q, g); }
    MulLe(q + 1, n, g);
    assert (q + 1) * g == q * g + g;
    DivUnique(base, g, q, 0);
    DivUnique(base + s, g, q, s);
    StepApart(base, s);
  }

  lemma StepApart(base: nat, s: nat)
    requires s > 0
    ensures (base + s) / s == base / s + 1
  {
    DivDef(base, s);
    var q, r := base / s, base % s;
    assert (q + 1) * s == q * s + s;
    DivUnique(base + s, s, q + 1, r);
  }

  lemma CoversDiv(c: Pos, x: nat)
    requires c.l <= 4
    ensures Covers(c, x) <==> Div(x, Span(c.l)) == c.v
  {
  }

  /** A prefix that does not end at a level boundary is wider than a node of the level it is put at. */
  lemma UnalignedWide(depth: nat)
    requires 1 <= depth <= 32 && !Aligned(depth)
    ensures 2 * Span(LevelOf(depth)) <= Pow2(32 - depth)
  {
    Powers();
    if depth < 16 {
      Pow2Add(16 - depth, 16);
      assert Pow2(16 - depth) == 2 * Pow2(15 - depth);
      MulLe(2, Pow2(16 - depth), Pow2(16));
    }
  }

  /** Some address of such a prefix is not below its node. */
  lemma TargetTooNarrow(ip: nat, depth: nat, c: Pos) returns (x: nat)
    requires ip < ADDRESSES && 1 <= depth <= 32 && !Aligned(depth) && c.l == Target(ip, depth).l
    ensures x < ADDRESSES && SamePrefix(ip, x, depth) && !Covers(c, x)
  {
    var g, s := Pow2(32 - depth), Span(c.l);
    UnalignedWide(depth);
    Pow2Add(depth, 32 - depth);
    Pow32();
    hide Target, Span, Pow2, Aligned, Covers, Div;
    var base := GroupWitness(ip, g, s, Pow2(depth), ADDRESSES);
    CoversDiv(c, base);
    CoversDiv(c, base + s);
    x := if Covers(c, base) then base + s else base;
  }

  /**
    The node a prefix is put at covers exactly the addresses of the prefix if and only if it ends at
    a level boundary.
   */
  lemma TargetExact(ip: nat, depth: nat)
    requires ip < ADDRESSES && 1 <= depth <= 32
    ensures (forall x: nat :: x < ADDRESSES ==> (Covers(Target(ip, depth), x) <==> SamePrefix(ip, x, depth))) <==>
        Aligned(depth)
  {
    hide Covers, SamePrefix, Target;
    if Aligned(depth) {
      TargetAt(ip, depth);
      forall x: nat ensures Covers(Target(ip, depth), x) <==> SamePrefix(ip, x, depth) { PrefixCovers(ip, depth, x); }
    } else {
      var x := TargetTooNarrow(ip, depth, Target(ip, depth));
    }
  }

  /** A single prefix is looked up right, for all addresses, if and only if it ends at a level boundary. */
  lemma SinglePrefixRight(t: Trie, ip: nat, port: int, depth: nat, room: nat)
    requires Initial(t) && ip < ADDRESSES && 1 <= depth <= 32 && room >= 4
    ensures (forall x: nat :: x < ADDRESSES ==>
              Lookup(Insert(t, ip, port, depth, room), x) == if SamePrefix(ip, x, depth) then Some(port)
                  else None) <==> Aligned(depth)
  {
    var c, e := Target(ip, depth), Entry(depth, port);
    NoRoutes(0);
    TargetInRange(ip, depth);
    assert Fresh(map[], c, e);
    NoneClean(ip, depth);
    hide SamePrefix, Lookup, Insert, Target, Fits, Fresh, Clean, Represents, At, Best;
    InitialRepresents(t);
    AddFresh(t, map[], ip, port, depth, room);
    TargetExact(ip, depth);
    forall x: nat | x < ADDRESSES
        ensures Lookup(Insert(t, ip, port, depth, room), x) == if Covers(c, x) then Some(port) else None {
      LookupBest(Insert(t, ip, port, depth, room), map[c := e], x);
      OneRoute(c, e, x);
    }
  }

  lemma NoneClean(ip: nat, depth: nat)
    requires depth <= 32
    ensures Clean(map[], ip, depth)
  {
    forall j | 0 <= j < LevelOf(depth) ensures Longest(map[], At(ip, j)) == Empty { LongestIs(map[], ip, j); }
    assert forall q :: !RouteBelow(map[], q);
    hide RouteBelow, At, Longest;
  }

  lemma OneRoute(c: Pos, e: Entry, x: nat)
    requires Fresh(map[], c, e)
    ensures Best(map[c := e], x) == if Covers(c, x) then Some(e.port) else None
  {
    NoRoutes(x);
    hide At, Longest, Fits, Fresh;
    LongestAdd(map[], c, e, At(x, 4));
    UnderAt(x, 4, c);
  }

  /**
    A prefix shorter than 16 bits, inserted after the one of 16 bits at the same address, takes
    over all its addresses.
   */
  lemma ShorterOverwrites(t: Trie, ip: nat, port: int, port': int, depth: nat, room: nat, x: nat)
    requires Initial(t) && ip < ADDRESSES && x < ADDRESSES && depth < 16 && room >= 4 && SamePrefix(ip, x, 16)
    ensures Lookup(Insert(Insert(t, ip, port, 16, room), ip, port', depth, room), x) == Some(port')
  {
    var p := Prefix(ip, 16, port);
    InitialRepresents(t);
    NoRoutes(0);
    NoneClean(ip, 16);
    AddPrefix(map[], p);
    PrefixCovers(ip, 16, x);
    SingleBelow(p, At(ip, 0));
    assert Single(p) == map[][At(ip, 0) := Entry(16, port)];
    assert Target(ip, depth) == At(ip, 0) && Overwrites(Single(p), At(ip, 0), depth);
    hide Initial, Represents, Fits, Fresh, Clean, Insert, Lookup, SamePrefix, Best, At, Covers, Target, Overwrites,
        RouteBelow, Single;
    AddFresh(t, map[], ip, port, 16, room);
    OverwrittenAnswer(Insert(t, ip, port, 16, room), Single(p), ip, port', depth, room, x);
  }

  /** The routes of one prefix. */
  function Single(p: Prefix): (r: Routes)
    requires p.Valid()
  {
    map[At(p.ip, Level(p.depth)) := Entry(p.depth, p.port)]
  }

  lemma SingleRoutes(p: Prefix)
    requires p.Valid()
    ensures RoutesOf([p]) == Single(p) && RoutesOf([]) == map[] && Fits(Single(p)) && CleanAll([p])
  {
    assert [p][..0] == [];
    NoRoutes(0);
    NoneClean(p.ip, p.depth);
    AddPrefix(map[], p);
    hide Clean, Fits, At;
  }

  lemma SingleBelow(p: Prefix, q: Pos)
    requires p.Valid()
    ensures RouteBelow(Single(p), q) <==> q.l < Level(p.depth) && Covers(q, p.ip)
  {
    UnderAt(p.ip, Level(p.depth), q);
    hide Under, At;
    var z := At(p.ip, Level(p.depth));
    assert z in Single(p);
  }

  /**
    Two prefixes, the second a proper part of the first: inserting the shorter one first never
    works.  Inserting the longer one first works if and only if the update of the shorter one
    reaches its level.
   */
  lemma NestedPairIff(p: Prefix, q: Prefix)
    requires p.Valid() && q.Valid() && p.depth < q.depth && SamePrefix(p.ip, q.ip, p.depth)
    ensures !CleanAll([p, q])
    ensures CleanAll([q, p]) <==> Level(q.depth) <= Reach(Level(p.depth))
  {
    PairClean(p, q);
    PairClean(q, p);
    PrefixCovers(p.ip, p.depth, q.ip);
    hide Clean, CleanAll;
    ShorterFirst(p, q);
    LongerFirst(p, q);
  }

  lemma PairClean(p: Prefix, q: Prefix)
    requires p.Valid() && q.Valid()
    ensures CleanAll([p, q]) <==> Clean(Single(p), q.ip, q.depth)
  {
    hide Clean, RoutesOf;
    SingleRoutes(p);
    var ps := [p, q];
    assert ps[..1] == [p] && ps[..0] == [] && [p][..0] == [];
    assert CleanAt([p], 0) && CleanAt(ps, 0);
    assert CleanAt(ps, 1) <==> Clean(Single(p), q.ip, q.depth);
  }

  lemma ShorterFirst(p: Prefix, q: Prefix)
    requires p.Valid() && q.Valid() && p.depth < q.depth && Covers(At(p.ip, Level(p.depth)), q.ip)
    ensures !Clean(Single(p), q.ip, q.depth)
  {
    var l := Level(p.depth);
    var z := At(q.ip, l);
    assert z == At(p.ip, l);
    SingleBelow(p, z);
    hide RouteBelow, At;
    assert z in Single(p) && Longest(Single(p), z).Hop?;
    assert LevelOf(q.depth) > l;
  }

  lemma LongerFirst(p: Prefix, q: Prefix)
    requires p.Valid() && q.Valid() && p.depth < q.depth && Covers(At(p.ip, Level(p.depth)), q.ip)
    ensures Clean(Single(q), p.ip, p.depth) <==> Level(q.depth) <= Reach(Level(p.depth))
  {
    var r, l, m := Single(q), Level(p.depth), Level(q.depth);
    TargetAt(p.ip, p.depth);
    assert LevelOf(p.depth) == l && l < m;
    LongerSheltered(p, q);
    hide RouteBelow, At, Sheltered, CoveredBelow, Target, Covers, Single;
    if m <= Reach(l) {
      forall x: nat ensures !RouteBelow(r, At(x, Reach(l))) { SingleBelow(q, At(x, Reach(l))); }
    } else {
      var x := LongerMissed(p, q);
    }
  }

  lemma LongerSheltered(p: Prefix, q: Prefix)
    requires p.Valid() && q.Valid() && p.depth < q.depth && Covers(At(p.ip, Level(p.depth)), q.ip)
    ensures Sheltered(Single(q), p.ip, Level(p.depth))
  {
    hide RouteBelow, Single, Span;
    var l := Level(p.depth);
    forall j | 0 <= j < l ensures RouteBelow(Single(q), At(p.ip, j)) {
      CoversUp(p.ip, q.ip, j, l);
      SingleBelow(q, At(p.ip, j));
    }
  }

  /** An address beside the longer prefix that the update does not reach. */
  lemma LongerMissed(p: Prefix, q: Prefix) returns (x: nat)
    requires p.Valid() && q.Valid() && p.depth < q.depth && Covers(At(p.ip, Level(p.depth)), q.ip)
    requires Level(q.depth) > Reach(Level(p.depth))
    ensures x < ADDRESSES && Covers(At(p.ip, Level(p.depth)), x) &&
        !CoveredBelow(Single(q), At(p.ip, Level(p.depth)), x)
    ensures RouteBelow(Single(q), At(x, Reach(Level(p.depth))))
  {
    hide RouteBelow, Span;
    var l, m := Level(p.depth), Level(q.depth);
    x := Sibling(q.ip, m - 1, At(q.ip, m));
    CoversUp(x, q.ip, l, m - 1);
    CoversUp(x, q.ip, Reach(l), m - 1);
    SingleBelow(q, At(x, Reach(l)));
  }
}
