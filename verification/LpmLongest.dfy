/**
  The trie that answers with the longest match.  A set of routes may hold prefixes of one
  another.  One trie represents it: a node has a table exactly if some route lies below it, and
  otherwise holds the longest route at or above it.
 */
module LpmLongest {
  import opened Basics
  import opened L3fwdRoutes
  import opened LpmTrie
  import opened LpmCells

  datatype Entry = Entry(depth: nat, port: int)

  /** Routes by the node they end up at. */
  type Routes = map<Pos, Entry>

  predicate InRange(q: Pos) { q.l <= 4 && Base(q) < ADDRESSES }

  /** Prefixes are at the nodes of their depth. */
  ghost predicate Fits(r: Routes) { forall q :: q in r ==>
      InRange(q) && r[q].depth <= 32 && LevelOf(r[q].depth) == q.l }

  /** Some route lies strictly below a position. */
  ghost predicate RouteBelow(r: Routes, p: Pos) { exists q :: q in r && p.l < q.l && Under(q, p) }

  /** The longest route at or above a position. */
  function Longest(r: Routes, q: Pos): (c: Cell)
    ensures !c.Inner?
    decreases q.l
  {
    if q in r then Hop(r[q].depth, r[q].port) else if q.l == 0 then Empty else Longest(r, Up(q))
  }

  function PortOf(c: Cell): (a: Option<int>) { if c.Hop? then Some(c.port) else None }

  /** The port of the longest route that covers an address. */
  function Best(r: Routes, x: nat): (a: Option<int>) { PortOf(Longest(r, At(x, 4))) }

  /** The route found is on the way of the address, and none on the way below is. */
  lemma {:induction false} LongestIs(r: Routes, x: nat, m: nat)
    requires m <= 4
    ensures var c := Longest(r, At(x, m));
            && (c.Empty? <==> forall i :: 0 <= i <= m ==> At(x, i) !in r)
            && (c.Hop? ==> exists i :: 0 <= i <= m && At(x, i) in r && r[At(x, i)] == Entry(c.depth, c.port)
                                       && forall k :: i < k <= m ==> At(x, k) !in r)
    decreases m
  {
    hide At;
    if m > 0 {
      UpAt(x, m);
      LongestIs(r, x, m - 1);
      if At(x, m) !in r && Longest(r, At(x, m)).Hop? {
        var c := Longest(r, At(x, m));
        var i :| 0 <= i <= m - 1 && At(x, i) in r && r[At(x, i)] == Entry(c.depth, c.port) &&
            forall k :: i < k <= m - 1 ==> At(x, k) !in r;
        assert forall k :: i < k <= m ==> At(x, k) !in r;
      }
    }
  }

  /** If no route lies below a position, it decides for all addresses below. */
  lemma {:induction false} LongestSettled(r: Routes, x: nat, m: nat, n: nat)
    requires m <= n <= 4 && !RouteBelow(r, At(x, m))
    ensures Longest(r, At(x, n)) == Longest(r, At(x, m))
    decreases n
  {
    hide At, RouteBelow;
    if m < n {
      UpAt(x, n);
      if At(x, n) in r { BelowOf(r, x, m, n); }
      LongestSettled(r, x, m, n - 1);
    }
  }

  lemma BelowOf(r: Routes, x: nat, l: nat, m: nat)
    requires l < m <= 4 && At(x, m) in r
    ensures RouteBelow(r, At(x, l))
  {
    UnderAt(x, m, At(x, l));
  }

  /** Routes below a position are below those above it. */
  lemma BelowUp(r: Routes, x: nat, l: nat, m: nat)
    requires l <= m <= 4 && RouteBelow(r, At(x, m))
    ensures RouteBelow(r, At(x, l))
  {
    hide Span;
    var q :| q in r && m < q.l && Under(q, At(x, m));
    CoversUp(Base(q), x, l, m);
  }

  /** A shorter depth means a higher level. */
  lemma {:induction false} LongestLevel(r: Routes, q: Pos)
    requires Fits(r)
    ensures Longest(r, q).Hop? ==> LevelOf(Longest(r, q).depth) <= q.l
    decreases q.l
  {
    hide InRange;
    if q !in r && q.l > 0 { LongestLevel(r, Up(q)); }
  }

  /** A longer prefix is at the node already. */
  ghost predicate Outranked(r: Routes, p: Pos, depth: nat) { p in r && r[p].depth > depth }

  /** ... which the code overwrites all the same at a first-level node without table. */
  ghost predicate Overwrites(r: Routes, p: Pos, depth: nat) { Outranked(r, p, depth) && p.l == 0 && !RouteBelow(r, p) }

  /** The routes with a new one; of two at one node the longer one counts, and of equally long ones the new one. */
  ghost function Merged(r: Routes, p: Pos, e: Entry): (r': Routes) {
    if Outranked(r, p, e.depth) then r else r[p := e]
  }

  /** A new route may replace the one at its node. */
  ghost predicate Fresh(r: Routes, p: Pos, e: Entry) {
    InRange(p) && e.depth <= 32 && LevelOf(e.depth) == p.l && (p in r ==> r[p].depth <= e.depth)
  }

  /** A new route changes the longest match below it as the update changes a node. */
  lemma {:induction false} LongestAdd(r: Routes, p: Pos, e: Entry, q: Pos)
    requires Fits(r) && Fresh(r, p, e) && q.l <= 4
    ensures Longest(r[p := e], q) == if Under(q, p) then Upd(Longest(r, q), e.port, e.depth) else Longest(r, q)
    decreases q.l
  {
    hide Under, InRange;
    UnderUp(q, p);
    UnderLevel(q, p);
    if q == p {
      LongestLevel(r, p);
      LongestHere(r, p, e);
    } else if q !in r && q.l > 0 {
      LongestAdd(r, p, e, Up(q));
    }
  }

  lemma LongestHere(r: Routes, p: Pos, e: Entry)
    requires Fits(r) && Fresh(r, p, e)
    ensures Upd(Longest(r, p), e.port, e.depth) == Hop(e.depth, e.port)
  {
    hide InRange;
    if p !in r && p.l > 0 { LongestLevel(r, Up(p)); }
  }

  /** The nodes with a table: those above a route, and those on the way to b above level l. */
  ghost predicate Tabled(r: Routes, b: nat, l: nat, q: Pos) { RouteBelow(r, q) ||
      (q.l < l && q.l <= 4 && q == At(b, q.l)) }

  /** The trie represents the routes, with tables down to level l on the way to b. */
  ghost predicate Held(t: Trie, r: Routes, b: nat, l: nat) {
    && (forall q :: q in t <==> InRange(q) && (q.l == 0 || Tabled(r, b, l, Up(q))))
    && (forall q :: q in t ==> t[q] == if Tabled(r, b, l, q) then Inner else Longest(r, q))
  }

  ghost predicate HeldAt(t: Trie, r: Routes, b: nat, l: nat, q: Pos) {
    && (q in t <==> InRange(q) && (q.l == 0 || Tabled(r, b, l, Up(q))))
    && (q in t ==> t[q] == if Tabled(r, b, l, q) then Inner else Longest(r, q))
  }

  lemma HeldIff(t: Trie, r: Routes, b: nat, l: nat)
    requires forall q :: HeldAt(t, r, b, l, q)
    ensures Held(t, r, b, l)
  {
    hide InRange, Tabled, Longest;
    forall q ensures q in t <==> InRange(q) && (q.l == 0 || Tabled(r, b, l, Up(q))) { assert HeldAt(t, r, b, l, q); }
    forall q | q in t ensures t[q] == (if Tabled(r, b, l, q) then Inner else Longest(r, q)) {
      assert HeldAt(t, r, b, l, q);
    }
  }

  /** The trie that represents the routes. */
  ghost predicate Represents(t: Trie, r: Routes) { Held(t, r, 0, 0) }

  /** Routes have one trie only: the order in which it was made does not matter. */
  lemma OneTrie(t: Trie, t': Trie, r: Routes)
    requires Represents(t, r) && Represents(t', r)
    ensures t == t'
  {
    hide Tabled, InRange;
    assert forall q :: q in t <==> q in t';
  }

  lemma TabledLevel(r: Routes, b: nat, l: nat, q: Pos)
    requires Tabled(r, b, l, q) && l <= 4
    ensures q.l < 4
  {
  }

  lemma InRangeAt(x: nat, m: nat)
    requires m <= 4
    ensures InRange(At(x, m)) <==> x < ADDRESSES
  {
    match m
    case 0 =>
    case 1 =>
    case 2 =>
    case 3 =>
    case _ =>
  }

  lemma InRangeUp(q: Pos)
    requires 0 < q.l <= 4
    ensures InRange(q) <==> InRange(Up(q))
  {
    BaseAt(q);
    InRangeAt(Base(q), q.l);
    InRangeAt(Base(q), q.l - 1);
  }

  lemma HeldTidy(t: Trie, r: Routes, b: nat, l: nat)
    requires Held(t, r, b, l)
    ensures Tidy(t)
  {
    hide InRange, Tabled;
    forall q | q in t && q.l > 0 ensures Up(q) in t && t[Up(q)].Inner? {
      assert Tabled(r, b, l, Up(q));
      InRangeUpOf(q);
      if Up(q).l > 0 { TabledAbove(r, b, l, Up(q)); }
    }
  }

  lemma InRangeUpOf(q: Pos)
    requires InRange(q) && q.l > 0
    ensures InRange(Up(q))
  {
    InRangeUp(q);
  }

  /** Above a node with a table are nodes with tables. */
  lemma TabledAbove(r: Routes, b: nat, l: nat, q: Pos)
    requires Tabled(r, b, l, q) && InRange(q) && q.l > 0
    ensures Tabled(r, b, l, Up(q))
  {
    BaseAt(q);
    hide Up;
    if RouteBelow(r, q) {
      BelowUp(r, Base(q), q.l - 1, q.l);
    } else {
      UpAt(b, q.l);
    }
  }

  /** An address ends at a node without table, of which the answer is. */
  lemma {:induction false} Leaf(t: Trie, r: Routes, b: nat, l: nat, x: nat, k: nat) returns (m: nat)
    requires Held(t, r, b, l) && l <= 4 && x < ADDRESSES && k <= 4 && At(x, k) in t
    ensures k <= m <= 4 && At(x, m) in t && !t[At(x, m)].Inner? && forall j :: k <= j < m ==>
        At(x, j) in t && t[At(x, j)].Inner?
    decreases 4 - k
  {
    hide RouteBelow, Span, Longest;
    m := k;
    if t[At(x, k)].Inner? {
      TabledLevel(r, b, l, At(x, k));
      InRangeAt(x, k + 1);
      UpAt(x, k + 1);
      m := Leaf(t, r, b, l, x, k + 1);
    }
  }

  lemma FirstIn(t: Trie, r: Routes, b: nat, l: nat, x: nat)
    requires Held(t, r, b, l) && x < ADDRESSES
    ensures At(x, 0) in t
  {
    InRangeAt(x, 0);
  }

  /** What is found at a node without table. */
  lemma LookupAt(t: Trie, x: nat, m: nat)
    requires m <= 4 && At(x, m) in t && !t[At(x, m)].Inner? && forall j :: 0 <= j < m ==>
        At(x, j) in t && t[At(x, j)].Inner?
    ensures Lookup(t, x) == PortOf(t[At(x, m)])
  {
    hide At, Descend;
    DescendSkip(t, x, 0, m);
    DescendHere(t, x, m);
  }

  /** The trie that represents the routes answers every address with its longest match. */
  lemma LookupBest(t: Trie, r: Routes, x: nat)
    requires Represents(t, r) && x < ADDRESSES
    ensures Lookup(t, x) == Best(r, x)
  {
    hide RouteBelow, Longest, Lookup, At;
    FirstIn(t, r, 0, 0, x);
    var m := Leaf(t, r, 0, 0, x, 0);
    LookupAt(t, x, m);
    LongestSettled(r, x, m, 4);
  }

  /** Every address gets its longest match. */
  ghost predicate AllLongest(t: Trie, r: Routes) { forall x: nat :: x < ADDRESSES ==> Lookup(t, x) == Best(r, x) }
}
