/**
  Insertion into the trie that represents a set of routes: it is decided for every insertion
  whether all addresses get their longest match afterwards.
 */
module LpmInsert {
  import opened Basics
  import opened L3fwdRoutes
  import opened LpmTrie
  import opened LpmCells
  import opened LpmLongest

  // The way down.

  /** No node above the new route holds a next hop. */
  ghost predicate Sheltered(r: Routes, ip: nat, l: nat)
    requires l <= 4
  {
    forall j :: 0 <= j < l ==> RouteBelow(r, At(ip, j)) || Longest(r, At(ip, j)) == Empty
  }

  /** A node without table and next hop gets a table. */
  lemma ExpandHeld(t: Trie, r: Routes, b: nat, l: nat)
    requires Held(t, r, b, l) && l < 4 && At(b, l) in t && !t[At(b, l)].Inner? && Longest(r, At(b, l)) == Empty
    ensures Held(Expand(t, At(b, l)), r, b, l + 1)
  {
    var t', m := Expand(t, At(b, l)), l + 1;
    hide Held, Longest, Expand, At;
    forall q ensures HeldAt(t', r, b, m, q) {
      ExpandedIn(t, r, b, l, q);
      if q in t' { ExpandedIs(t, r, b, l, q); }
    }
    HeldIff(t', r, b, m);
  }

  lemma ExpandedIn(t: Trie, r: Routes, b: nat, l: nat, q: Pos)
    requires Held(t, r, b, l) && l < 4 && At(b, l) in t
    ensures q in Expand(t, At(b, l)) <==> InRange(q) && (q.l == 0 || Tabled(r, b, l + 1, Up(q)))
  {
    hide InRange, Longest, Expand, At, Tabled;
    ExpandCells(t, At(b, l));
    if q.l > 0 { TabledNext(r, b, l, Up(q)); }
    if IsKid(At(b, l), q) { KidInRange(At(b, l), q); }
  }

  lemma KidInRange(p: Pos, q: Pos)
    requires InRange(p) && IsKid(p, q) && p.l < 4
    ensures InRange(q)
  {
    InRangeUp(q);
  }

  lemma ExpandedIs(t: Trie, r: Routes, b: nat, l: nat, q: Pos)
    requires Held(t, r, b, l) && l < 4 && At(b, l) in t && !t[At(b, l)].Inner? && Longest(r, At(b, l)) == Empty &&
        q in Expand(t, At(b, l))
    ensures Expand(t, At(b, l))[q] == if Tabled(r, b, l + 1, q) then Inner else Longest(r, q)
  {
    hide InRange, Longest, Expand, At, Tabled;
    ExpandCells(t, At(b, l));
    TabledNext(r, b, l, q);
    if IsKid(At(b, l), q) {
      HeldLeaf(t, r, b, l);
      KidHeld(r, b, l, q);
    }
  }

  lemma TabledNext(r: Routes, b: nat, l: nat, q: Pos)
    requires l < 4
    ensures Tabled(r, b, l + 1, q) <==> Tabled(r, b, l, q) || q == At(b, l)
  {
    hide RouteBelow;
  }

  /** The nodes of the new table. */
  lemma KidHeld(r: Routes, b: nat, l: nat, q: Pos)
    requires l < 4 && !RouteBelow(r, At(b, l)) && IsKid(At(b, l), q)
    ensures !Tabled(r, b, l + 1, q) && Longest(r, q) == Longest(r, At(b, l))
  {
    BaseAt(q);
    hide At, RouteBelow, Under, Base;
    if RouteBelow(r, q) { BelowUp(r, Base(q), l, l + 1); }
    if q in r { BelowOf(r, Base(q), l, l + 1); }
  }

  /** A node with a table is passed. */
  lemma PassHeld(t: Trie, r: Routes, b: nat, l: nat)
    requires Held(t, r, b, l) && l < 4 && At(b, l) in t && t[At(b, l)].Inner?
    ensures Held(t, r, b, l + 1)
  {
    hide InRange, RouteBelow, Longest, At, Tabled;
    forall q ensures Tabled(r, b, l + 1, q) <==> Tabled(r, b, l, q) {
      TabledNext(r, b, l, q);
    }
  }

  lemma NextIn(t: Trie, r: Routes, b: nat, l: nat)
    requires Held(t, r, b, l + 1) && l < 4 && b < ADDRESSES
    ensures At(b, l + 1) in t && At(b, l) in t && t[At(b, l)] == Inner
  {
    hide RouteBelow;
    InRangeAt(b, l + 1);
    InRangeAt(b, l);
    UpAt(b, l + 1);
    hide InRange, Span;
    if l > 0 {
      UpAt(b, l);
      TabledAbove(r, b, l + 1, At(b, l));
    }
  }

  function Widened(t: Trie, p: Pos): (t': Trie)
    requires p in t
  {
    if t[p].Inner? then t else Expand(t, p)
  }

  /** One step of the way: a node without table gets one. */
  lemma StepDown(t: Trie, r: Routes, b: nat, j: nat)
    requires Held(t, r, b, j) && j < 4 && b < ADDRESSES && At(b, j) in t
    requires RouteBelow(r, At(b, j)) || Longest(r, At(b, j)) == Empty
    ensures Held(Widened(t, At(b, j)), r, b, j + 1) && At(b, j + 1) in Widened(t, At(b, j))
  {
    hide Held, Expand, RouteBelow, Longest, At;
    if t[At(b, j)].Inner? {
      PassHeld(t, r, b, j);
    } else {
      HeldLeaf(t, r, b, j);
      ExpandHeld(t, r, b, j);
    }
    NextIn(Widened(t, At(b, j)), r, b, j);
  }

  lemma LevelStep(depth: nat, j: nat)
    requires 16 < depth <= 32 && j < LevelOf(depth)
    ensures LevelOf(depth) <= 4 && j <= (depth - 17) / 4 && 16 + 4 * j < depth
    ensures depth <= 20 + 4 * j <==> LevelOf(depth) == j + 1
    ensures depth > 20 + 4 * j ==> j + 1 <= (depth - 17) / 4
  {
  }

  /** Down to the level of the new route, tables are added where there are none. */
  lemma {:induction false} WayDown(t: Trie, r: Routes, j: nat, ip: nat, port: int, depth: nat,
      room: nat) returns (mid: Trie)
    requires 16 < depth <= 32 && j < LevelOf(depth) && ip < ADDRESSES && room >= 4 - j
    requires Held(t, r, Base(Target(ip, depth)), j) && Sheltered(r, ip, LevelOf(depth)) && At(ip, j) in t
    ensures Held(mid, r, Base(Target(ip, depth)), LevelOf(depth)) && Target(ip, depth) in mid
    ensures InsertFrom(t, j, ip, port, depth, room) == UpdateNode(mid, Target(ip, depth), port, depth)
    decreases 4 - j
  {
    hide Held, Longest, RouteBelow, At, Base, UpdateNode, InsertFrom, Target, LevelOf, Widened;
    LevelStep(depth, j);
    var b := Base(Target(ip, depth));
    TargetPath(ip, depth, j);
    TargetInRange(ip, depth);
    StepDown(t, r, b, j);
    InsertStep(t, j, ip, port, depth, room);
    var t' := Widened(t, At(ip, j));
    if depth <= 20 + 4 * j {
      mid := t';
    } else {
      TargetPath(ip, depth, j + 1);
      mid := WayDown(t', r, j + 1, ip, port, depth, RoomAfter(t, At(ip, j), room));
    }
  }

  function RoomAfter(t: Trie, p: Pos, room: nat): (n: nat)
    requires p in t && room > 0
    ensures n >= room - 1
  {
    if t[p].Inner? then room else room - 1
  }

  /** One step of the insertion. */
  lemma InsertStep(t: Trie, j: nat, ip: nat, port: int, depth: nat, room: nat)
    requires 16 < depth <= 32 && j < LevelOf(depth) && At(ip, j) in t && room > 0
    ensures 16 + 4 * j < depth
    ensures var t' := Widened(t, At(ip, j));
            && (depth <= 20 + 4 * j && Target(ip, depth) in t' ==>
                 InsertFrom(t, j, ip, port, depth, room) == UpdateNode(t', Target(ip, depth), port, depth))
            && (depth > 20 + 4 * j ==>
                 InsertFrom(t, j, ip, port, depth, room) == InsertFrom(t', j +
                     1, ip, port, depth, RoomAfter(t, At(ip, j), room)))
  {
    hide At, Expand, UpdateNode, LastIndex;
  }

  lemma HeldLeaf(t: Trie, r: Routes, b: nat, l: nat)
    requires Held(t, r, b, l) && l <= 4 && At(b, l) in t && !t[At(b, l)].Inner?
    ensures !RouteBelow(r, At(b, l)) && t[At(b, l)] == Longest(r, At(b, l))
  {
    hide RouteBelow, InRange, Longest;
  }

  lemma TargetInRange(ip: nat, depth: nat)
    requires depth <= 32 && ip < ADDRESSES
    ensures InRange(Target(ip, depth)) && Base(Target(ip, depth)) < ADDRESSES
  {
    if depth <= 16 {
      InRangeAt(ip, 0);
    } else {
      var c, l := Target(ip, depth), LevelOf(depth);
      TargetPath(ip, depth, l - 1);
      UpAt(Base(c), l);
      InRangeAt(ip, l - 1);
      InRangeUp(c);
    }
  }

  /** Without a way the address does not matter. */
  lemma HeldAnywhere(t: Trie, r: Routes, b: nat, b': nat)
    requires Held(t, r, b, 0)
    ensures Held(t, r, b', 0)
  {
    hide InRange, Longest, RouteBelow;
  }

  /** An insertion first makes the way, and then updates the nodes in reach. */
  lemma InsertUpdates(t: Trie, r: Routes, ip: nat, port: int, depth: nat, room: nat) returns (mid: Trie)
    requires Represents(t, r) && Fits(r) && ip < ADDRESSES && depth <= 32 && room >= 4 &&
        Sheltered(r, ip, LevelOf(depth))
    requires !Overwrites(r, Target(ip, depth), depth)
    ensures Held(mid, r, Base(Target(ip, depth)), LevelOf(depth)) && Target(ip, depth) in mid
    ensures Updated(mid, Insert(t, ip, port, depth, room), port, depth, q => InReach(Target(ip, depth), q))
  {
    var p := Target(ip, depth);
    HeldAnywhere(t, r, 0, Base(p));
    FirstIn(t, r, 0, 0, ip);
    hide Held, Fits, Overwrites, Sheltered, InReach, Target, InsertFrom, UpdateNode, UpdateBelow, Base, LevelOf,
        Updated, At, Tidy;
    if depth > 16 {
      mid := WayDown(t, r, 0, ip, port, depth, room);
      NodeUpdates(mid, r, p, port, depth);
    } else {
      mid := t;
      FirstUpdates(t, r, ip, port, depth, room);
    }
  }

  lemma NodeUpdates(mid: Trie, r: Routes, p: Pos, port: int, depth: nat)
    requires 0 < p.l <= 4 && Held(mid, r, Base(p), p.l) && p in mid
    ensures Updated(mid, UpdateNode(mid, p, port, depth), port, depth, q => InReach(p, q))
  {
    HeldTidy(mid, r, Base(p), p.l);
    HeldLevels(mid, r, Base(p), p.l);
    hide Held, InReach, OneDown, UpdateNode, Tidy;
    NodeCells(mid, p, port, depth);
    forall q | q in mid ensures InReach(p, q) <==> OneDown(p, q) { ReachNode(p, q); }
  }

  lemma HeldLevels(t: Trie, r: Routes, b: nat, l: nat)
    requires Held(t, r, b, l)
    ensures forall q :: q in t ==> q.l <= 4
  {
    hide Tabled, Longest;
  }

  /** At the first level. */
  lemma FirstUpdates(t: Trie, r: Routes, ip: nat, port: int, depth: nat, room: nat)
    requires Represents(t, r) && Fits(r) && ip < ADDRESSES && depth <= 16
    requires !Overwrites(r, Target(ip, depth), depth)
    ensures LevelOf(depth) == 0 && Target(ip, depth) == At(ip, 0)
    ensures Updated(t, Insert(t, ip, port, depth, room), port, depth, q => InReach(Target(ip, depth), q))
  {
    var p := At(ip, 0);
    assert Target(ip, depth) == p;
    FirstIn(t, r, 0, 0, ip);
    HeldTidy(t, r, 0, 0);
    HeldLevels(t, r, 0, 0);
    InRangeAt(ip, 0);
    hide Represents, At, Fits, InReach, BelowFrom, UpdateBelow, Target, Tidy, Updated, RouteBelow, InRange;
    if t[p].Inner? {
      BelowUpdates(t, p, port, depth);
    } else {
      FirstHeld(t, r, ip);
      assert Fresh(r, p, Entry(depth, port));
      FirstLeaf(t, r, p, Entry(depth, port));
    }
  }

  lemma FirstHeld(t: Trie, r: Routes, ip: nat)
    requires Represents(t, r) && At(ip, 0) in t && !t[At(ip, 0)].Inner?
    ensures t[At(ip, 0)] == Longest(r, At(ip, 0)) && !RouteBelow(r, At(ip, 0))
  {
    HeldAnywhere(t, r, 0, ip);
    HeldLeaf(t, r, ip, 0);
  }

  lemma BelowUpdates(t: Trie, p: Pos, port: int, depth: nat)
    requires p.l == 0 && p in t && t[p].Inner? && Tidy(t) && forall q :: q in t ==> q.l <= 4
    ensures Updated(t, UpdateBelow(t, p, 0, port, depth), port, depth, q => InReach(p, q))
  {
    hide Tidy, InReach, BelowFrom, UpdateBelow;
    BelowCells(t, p, 0, port, depth);
    forall q | q in t ensures InReach(p, q) <==> q == p || BelowFrom(p, 0, q) { ReachFirst(p, q); }
  }

  lemma FirstLeaf(t: Trie, r: Routes, p: Pos, e: Entry)
    requires p.l == 0 && p in t && !t[p].Inner? && Tidy(t) && forall q :: q in t ==> q.l <= 4
    requires Fits(r) && Fresh(r, p, e) && t[p] == Longest(r, p)
    ensures Updated(t, t[p := Hop(e.depth, e.port)], e.port, e.depth, q => InReach(p, q))
  {
    LongestHere(r, p, e);
    hide Fits, Fresh, Longest, Tidy, InReach, BelowFrom;
    forall q | q in t ensures InReach(p, q) <==> q == p {
      ReachFirst(p, q);
      NothingBelow(t, p, q);
    }
  }

  lemma NothingBelow(t: Trie, p: Pos, q: Pos)
    requires Tidy(t) && p in t && !t[p].Inner? && q in t
    ensures !BelowFrom(p, 0, q)
  {
  }

  // What is answered afterwards.

  lemma UpdatedAt(mid: Trie, t': Trie, p: Pos, port: int, depth: nat, q: Pos)
    requires Updated(mid, t', port, depth, q => InReach(p, q)) && q in mid
    ensures q in t' && t'[q] == (if InReach(p, q) then Upd(mid[q], port, depth) else mid[q])
  {
  }

  /** The nodes with tables and their answers are not affected elsewhere. */
  lemma LookupUpdated(mid: Trie, t': Trie, p: Pos, port: int, depth: nat, x: nat, m: nat)
    requires Updated(mid, t', port, depth, q => InReach(p, q))
    requires m <= 4 && At(x, m) in mid && !mid[At(x, m)].Inner? && forall j :: 0 <= j < m ==>
        At(x, j) in mid && mid[At(x, j)].Inner?
    ensures Lookup(t', x) == PortOf(if InReach(p, At(x, m)) then Upd(mid[At(x, m)], port, depth) else mid[At(x, m)])
  {
    hide At, Lookup, InReach, Updated;
    forall j | 0 <= j <= m
        ensures At(x, j) in t' && (t'[At(x, j)].Inner? <==>
        mid[At(x, j)].Inner?) { UpdatedAt(mid, t', p, port, depth, At(x, j)); }
    UpdatedAt(mid, t', p, port, depth, At(x, m));
    LookupAt(t', x, m);
  }

  /** Nodes in reach have no route below them after the level that is reached. */
  lemma ReachedIff(mid: Trie, r: Routes, p: Pos, x: nat, m: nat)
    requires p.l <= 4 && Held(mid, r, Base(p), p.l) && p in mid && m <= 4 && At(x, m) in mid && !mid[At(x, m)].Inner?
    requires forall j :: 0 <= j < m ==> At(x, j) in mid && mid[At(x, j)].Inner?
    ensures InReach(p, At(x, m)) <==> Covers(p, x) && !RouteBelow(r, At(x, Reach(p.l)))
  {
    UnderAt(x, m, p);
    var k := Reach(p.l);
    hide At, Base, Under, RouteBelow, Longest, Covers;
    HeldSettled(mid, r, Base(p), p.l, x, m);
    if Covers(p, x) {
      LeafBelow(mid, r, p, x, m);
      if m <= k {
        if RouteBelow(r, At(x, k)) { BelowUp(r, x, m, k); }
      } else {
        HeldInner(mid, r, Base(p), p.l, x, k);
      }
    }
  }

  lemma HeldSettled(t: Trie, r: Routes, b: nat, l: nat, x: nat, m: nat)
    requires Held(t, r, b, l) && m <= 4 && At(x, m) in t && !t[At(x, m)].Inner?
    ensures !RouteBelow(r, At(x, m)) && t[At(x, m)] == Longest(r, At(x, m))
  {
    hide RouteBelow, InRange, Longest;
  }

  lemma HeldInner(t: Trie, r: Routes, b: nat, l: nat, x: nat, k: nat)
    requires Held(t, r, b, l) && l <= k <= 4 && At(x, k) in t && t[At(x, k)].Inner?
    ensures RouteBelow(r, At(x, k))
  {
    hide RouteBelow, InRange, Longest;
  }

  /** An address below the new route ends below it. */
  lemma LeafBelow(mid: Trie, r: Routes, p: Pos, x: nat, m: nat)
    requires p.l <= 4 && Held(mid, r, Base(p), p.l) && p in mid && m <= 4 && At(x, m) in mid &&
        !mid[At(x, m)].Inner? && Covers(p, x)
    ensures p.l <= m
  {
    if m < p.l {
      CoversBase(p);
      CoversUp(Base(p), x, m, p.l);
    }
  }

  lemma FreshRanks(r: Routes, p: Pos, e: Entry)
    requires Fresh(r, p, e)
    ensures !Outranked(r, p, e.depth) && !Overwrites(r, p, e.depth)
  {
    hide InRange, RouteBelow;
  }

  /** What an address is answered after the insertion of a new route whose way is free. */
  lemma AnswerFresh(t: Trie, r: Routes, ip: nat, port: int, depth: nat, room: nat, x: nat)
    requires Represents(t, r) && Fits(r) && ip < ADDRESSES && depth <= 32 && room >= 4 &&
        Sheltered(r, ip, LevelOf(depth)) && x < ADDRESSES
    requires Fresh(r, Target(ip, depth), Entry(depth, port))
    ensures var p := Target(ip, depth);
            Lookup(Insert(t, ip, port, depth, room), x) ==
            if Covers(p, x) && RouteBelow(r, At(x, Reach(p.l))) then Best(r, x) else Best(r[p := Entry(depth, port)], x)
  {
    var p, e, t' := Target(ip, depth), Entry(depth, port), Insert(t, ip, port, depth, room);
    hide Represents, Held, Fits, Fresh, Sheltered, Target, Insert, Lookup, At, Base, RouteBelow, Longest, Updated,
        Covers, InReach, Under, Overwrites;
    FreshRanks(r, p, e);
    var mid := InsertUpdates(t, r, ip, port, depth, room);
    FirstIn(mid, r, Base(p), p.l, x);
    var m := Leaf(mid, r, Base(p), p.l, x, 0);
    LookupUpdated(mid, t', p, port, depth, x, m);
    ReachedIff(mid, r, p, x, m);
    HeldSettled(mid, r, Base(p), p.l, x, m);
    LongestSettled(r, x, m, 4);
    LongestAdd(r, p, e, At(x, 4));
    UnderAt(x, 4, p);
  }

  // Below a node with a next hop the next hop is lost.

  /** The next node on the way of a prefix. */
  function NextOn(ip: nat, l: nat, depth: nat): (p: Pos)
    requires l < 4 && 16 + 4 * l < depth <= 32
  {
    if depth <= 20 + 4 * l then Target(ip, depth) else At(ip, l + 1)
  }

  /**
    A longer prefix inserted below a node that holds a next hop makes it disappear for all
    addresses that take another way from the node.
   */
  lemma NestedLost(t: Trie, r: Routes, ip: nat, l: nat, port: int, depth: nat, room: nat, x: nat)
    requires Represents(t, r) && l < 4 && 16 + 4 * l < depth <= 32 && room >= 1 && x < ADDRESSES
    requires At(ip, l) in t && t[At(ip, l)].Hop? && At(x, l) == At(ip, l) && At(x, l + 1) != NextOn(ip, l, depth)
    ensures Best(r, x) == Some(t[At(ip, l)].port) && Lookup(Insert(t, ip, port, depth, room), x) == None
  {
    hide Represents, At, Insert, InsertFrom, Lookup, Target, Longest, NextOn, Best, RouteBelow;
    HopSettled(t, r, x, l);
    AllInner(t, r, ip, l);
    AllInner(t, r, x, l);
    InsertDeep(t, ip, l, port, depth, room);
    NestedCells(t, ip, l, port, depth, room, x);
    LookupEmpty(InsertFrom(t, l, ip, port, depth, room), x, l + 1);
  }

  lemma HopSettled(t: Trie, r: Routes, x: nat, l: nat)
    requires Represents(t, r) && l <= 4 && At(x, l) in t && t[At(x, l)].Hop?
    ensures Longest(r, At(x, l)) == t[At(x, l)] && !RouteBelow(r, At(x, l)) && Best(r, x) == Some(t[At(x, l)].port)
  {
    HeldSettled(t, r, 0, 0, x, l);
    hide Represents, At, Longest, RouteBelow;
    LongestSettled(r, x, l, 4);
  }

  lemma {:induction false} AllInner(t: Trie, r: Routes, x: nat, l: nat)
    requires Represents(t, r) && l <= 4 && At(x, l) in t
    ensures forall j :: 0 <= j < l ==> At(x, j) in t && t[At(x, j)].Inner?
    decreases l
  {
    if l > 0 {
      HeldTidy(t, r, 0, 0);
      UpAt(x, l);
      hide Represents, At;
      AllInner(t, r, x, l - 1);
    }
  }

  lemma InsertDeep(t: Trie, ip: nat, l: nat, port: int, depth: nat, room: nat)
    requires l < 4 && 16 + 4 * l < depth <= 32 && forall j :: 0 <= j < l ==> At(ip, j) in t && t[At(ip, j)].Inner?
    ensures Insert(t, ip, port, depth, room) == InsertFrom(t, l, ip, port, depth, room)
  {
    hide At, InsertFrom, UpdateBelow;
    InsertSkip(t, 0, l, ip, port, depth, room);
  }

  /** The nodes on the way of such an address. */
  lemma NestedCells(t: Trie, ip: nat, l: nat, port: int, depth: nat, room: nat, x: nat)
    requires l < 4 && 16 + 4 * l < depth <= 32 && room >= 1 && At(ip, l) in t && !t[At(ip, l)].Inner?
    requires forall j :: 0 <= j < l ==> At(x, j) in t && t[At(x, j)].Inner?
    requires At(x, l) == At(ip, l) && At(x, l + 1) != NextOn(ip, l, depth)
    ensures var t' := InsertFrom(t, l, ip, port, depth, room);
            && At(x, l + 1) in t' && t'[At(x, l + 1)] == Empty
            && forall j :: 0 <= j <= l ==> At(x, j) in t' && t'[At(x, j)].Inner?
  {
    UpAt(x, l + 1);
    assert IsKid(At(ip, l), At(x, l + 1));
    hide At, InsertFrom, Target;
    ExpandedCell(t, At(ip, l), At(x, l + 1));
    BelowLocal(t, l, ip, port, depth, room, At(x, l + 1));
    forall j | 0 <= j <= l
        ensures var t' := InsertFrom(t, l, ip, port, depth, room); At(x, j) in t' && t'[At(x, j)].Inner? {
      ExpandedCell(t, At(ip, l), At(x, j));
      BelowLocal(t, l, ip, port, depth, room, At(x, j));
    }
  }

  /** Another address below a position, on another way. */
  lemma Sibling(x: nat, l: nat, z: Pos) returns (y: nat)
    requires l < 4 && x < ADDRESSES
    ensures y < ADDRESSES && At(y, l) == At(x, l) && At(y, l + 1) != z
  {
    var p := At(x, l);
    var c := if Child(p, 0) == z then Child(p, 1) else Child(p, 0);
    y := Base(c);
    assert Up(c) == p && c.l <= 4;
    BaseAt(c);
    InRangeAt(x, l);
    InRangeUp(c);
  }

  /** If a node above the new route holds a next hop, some address gets a wrong answer. */
  lemma Unsheltered(t: Trie, r: Routes, ip: nat, port: int, depth: nat, room: nat) returns (x: nat)
    requires Represents(t, r) && Fits(r) && ip < ADDRESSES && depth <= 32 && room >= 1 &&
        !Sheltered(r, ip, LevelOf(depth))
    requires Fresh(r, Target(ip, depth), Entry(depth, port))
    ensures x < ADDRESSES && Lookup(Insert(t, ip, port, depth, room),
        x) != Best(r[Target(ip, depth) := Entry(depth, port)], x)
  {
    var p := Target(ip, depth);
    var j :| 0 <= j < p.l && !RouteBelow(r, At(ip, j)) && Longest(r, At(ip, j)) != Empty;
    FirstIn(t, r, 0, 0, ip);
    hide Represents, Fits, Fresh, Sheltered, At, Target, Insert, Lookup, Longest, RouteBelow, NextOn;
    var i := Leaf(t, r, 0, 0, ip, 0);
    LeafHolds(t, r, ip, j, i);
    LevelStep(depth, i);
    x := Sibling(ip, i, NextOn(ip, i, depth));
    NestedLost(t, r, ip, i, port, depth, room, x);
    LongestAdd(r, p, Entry(depth, port), At(x, 4));
  }

  lemma LeafHolds(t: Trie, r: Routes, ip: nat, j: nat, i: nat)
    requires Represents(t, r) && j < 4 && !RouteBelow(r, At(ip, j)) && Longest(r, At(ip, j)) != Empty
    requires i <= 4 && At(ip, i) in t && !t[At(ip, i)].Inner? && forall k :: 0 <= k < i ==>
        At(ip, k) in t && t[At(ip, k)].Inner?
    ensures i <= j && t[At(ip, i)].Hop?
  {
    HeldSettled(t, r, 0, 0, ip, i);
    if j < i { HeldInner(t, r, 0, 0, ip, j); }
    hide Represents, At, Longest, RouteBelow;
    LongestSettled(r, ip, i, j);
  }

  // The exact condition.

  /** A route strictly below p covers the address. */
  ghost predicate CoveredBelow(r: Routes, p: Pos, x: nat) { exists m :: p.l < m <= 4 && At(x, m) in r }

  /** The update need not reach the address, or does. */
  ghost predicate Reached(r: Routes, p: Pos, port: int, x: nat)
    requires p.l <= 4
  {
    CoveredBelow(r, p, x) || Best(r, x) == Some(port) || !RouteBelow(r, At(x, Reach(p.l)))
  }

  /** All answers are right after the insertion of a new route. */
  ghost predicate Proper(r: Routes, ip: nat, port: int, depth: nat)
    requires depth <= 32
  {
    && Sheltered(r, ip, LevelOf(depth))
    && forall x: nat :: x < ADDRESSES && Covers(Target(ip, depth), x) ==> Reached(r, Target(ip, depth), port, x)
  }

  /**
    A new route does not change the answer of an address exactly if there is a longer one, or one
    with the same port.
   */
  lemma SameBest(r: Routes, p: Pos, e: Entry, x: nat)
    requires Fits(r) && Fresh(r, p, e) && Covers(p, x)
    ensures Best(r[p := e], x) == Best(r, x) <==> CoveredBelow(r, p, x) || Best(r, x) == Some(e.port)
  {
    UnderAt(x, 4, p);
    CoveredDepth(r, p, e, x);
    hide At, Longest, CoveredBelow, Fits, Fresh, Under;
    LongestAdd(r, p, e, At(x, 4));
  }

  lemma CoveredDepth(r: Routes, p: Pos, e: Entry, x: nat)
    requires Fits(r) && Fresh(r, p, e) && Covers(p, x)
    ensures var c := Longest(r, At(x, 4)); CoveredBelow(r, p, x) <==> c.Hop? && c.depth > e.depth
  {
    hide Longest, InRange, Span;
    LongestIs(r, x, 4);
    var c := Longest(r, At(x, 4));
    if c.Hop? {
      var i :| 0 <= i <= 4 && At(x, i) in r && r[At(x, i)] == Entry(c.depth, c.port) && forall k :: i < k <= 4 ==>
          At(x, k) !in r;
      assert LevelOf(c.depth) == i;
      if i == p.l { assert At(x, i) == p; }
    }
  }

  /** After the insertion of a new route every address gets the longest match if and only if it is proper. */
  lemma FreshRightIff(t: Trie, r: Routes, ip: nat, port: int, depth: nat, room: nat)
    requires Represents(t, r) && Fits(r) && ip < ADDRESSES && depth <= 32 && room >= 4
    requires Fresh(r, Target(ip, depth), Entry(depth, port))
    ensures AllLongest(Insert(t, ip, port, depth, room), r[Target(ip, depth) := Entry(depth, port)]) <==>
        Proper(r, ip, port, depth)
  {
    var p, e := Target(ip, depth), Entry(depth, port);
    hide Represents, Fits, Fresh, Sheltered, At, Target, Insert, Lookup, Longest, RouteBelow, Covers, Best,
        CoveredBelow;
    if Sheltered(r, ip, LevelOf(depth)) {
      forall x: nat | x < ADDRESSES
        ensures Lookup(Insert(t, ip, port, depth, room), x) == Best(r[p := e], x) <==>
            (Covers(p, x) ==> Reached(r, p, port, x)) {
        AnswerFresh(t, r, ip, port, depth, room, x);
        if Covers(p, x) { SameBest(r, p, e, x); }
      }
    } else {
      var x := Unsheltered(t, r, ip, port, depth, room);
    }
  }

  /** The insertion is proper whatever the ports. */
  ghost predicate Clean(r: Routes, ip: nat, depth: nat)
    requires depth <= 32
  {
    && Sheltered(r, ip, LevelOf(depth))
    && forall x: nat :: x < ADDRESSES && Covers(Target(ip, depth), x) ==>
         CoveredBelow(r, Target(ip, depth), x) || !RouteBelow(r, At(x, Reach(LevelOf(depth))))
  }

  lemma CleanProper(r: Routes, ip: nat, port: int, depth: nat)
    requires depth <= 32
    ensures Clean(r, ip, depth) ==> Proper(r, ip, port, depth)
    ensures Proper(r, ip, port, depth) && (forall q :: q in r ==> r[q].port != port) ==> Clean(r, ip, depth)
  {
    hide Sheltered, Covers, At, Longest, RouteBelow, CoveredBelow, Target;
    if forall q :: q in r ==> r[q].port != port {
      forall x: nat ensures Best(r, x) != Some(port) { OtherPort(r, x, port); }
    }
  }

  lemma OtherPort(r: Routes, x: nat, port: int)
    requires forall q :: q in r ==> r[q].port != port
    ensures Best(r, x) != Some(port)
  {
    hide At, Longest;
    LongestIs(r, x, 4);
  }

  /** With the new route, the nodes on its way have a route below them. */
  lemma TabledAfter(r: Routes, p: Pos, e: Entry, q: Pos)
    requires p.l <= 4
    ensures RouteBelow(r[p := e], q) <==> Tabled(r, Base(p), p.l, q)
  {
    var r' := r[p := e];
    if RouteBelow(r', q) {
      var z :| z in r' && q.l < z.l && Under(z, q);
      assert z == p || z in r;
    }
    if RouteBelow(r, q) {
      var z :| z in r && q.l < z.l && Under(z, q);
      assert z in r';
    }
    if q.l < p.l && q == At(Base(p), q.l) { assert p in r' && Under(p, q); }
  }

  /** A node that the update does not reach need not be reached. */
  lemma NotReached(mid: Trie, r: Routes, ip: nat, e: Entry, q: Pos)
    requires e.depth <= 32 && Fits(r) && Fresh(r, Target(ip, e.depth), e) && Clean(r, ip, e.depth)
    requires Held(mid, r, Base(Target(ip, e.depth)), LevelOf(e.depth)) && q in mid && !mid[q].Inner?
    requires Under(q, Target(ip, e.depth)) && !InReach(Target(ip, e.depth), q)
    ensures Upd(Longest(r, q), e.port, e.depth) == Longest(r, q)
  {
    var p, x := Target(ip, e.depth), Base(q);
    BaseAt(q);
    HeldRange(mid, r, Base(p), p.l, q);
    hide Held, At, Base, Longest, RouteBelow, Target, Fits, Fresh, Sheltered, CoveredBelow;
    HeldAbove(mid, r, Base(p), p.l, x, q.l, Reach(p.l));
    HeldInner(mid, r, Base(p), p.l, x, Reach(p.l));
    HeldSettled(mid, r, Base(p), p.l, x, q.l);
    LongestSettled(r, x, q.l, 4);
    CoveredDepth(r, p, e, x);
  }

  lemma HeldRange(t: Trie, r: Routes, b: nat, l: nat, q: Pos)
    requires Held(t, r, b, l) && q in t
    ensures InRange(q) && Base(q) < ADDRESSES
  {
    hide Tabled, Longest;
  }

  lemma {:induction false} HeldAbove(t: Trie, r: Routes, b: nat, l: nat, x: nat, m: nat, k: nat)
    requires Held(t, r, b, l) && k < m <= 4 && At(x, m) in t
    ensures At(x, k) in t && t[At(x, k)].Inner?
    decreases m
  {
    HeldTidy(t, r, b, l);
    UpAt(x, m);
    hide Held, At;
    if k < m - 1 { HeldAbove(t, r, b, l, x, m - 1, k); }
  }

  /** A clean insertion of a new route yields the trie that represents the routes with the new one. */
  lemma AddFresh(t: Trie, r: Routes, ip: nat, port: int, depth: nat, room: nat)
    requires Represents(t, r) && Fits(r) && ip < ADDRESSES && depth <= 32 && room >= 4 && Clean(r, ip, depth)
    requires Fresh(r, Target(ip, depth), Entry(depth, port))
    ensures var r' := r[Target(ip, depth) := Entry(depth, port)];
        Represents(Insert(t, ip, port, depth, room), r') && Fits(r')
  {
    var p, e, t' := Target(ip, depth), Entry(depth, port), Insert(t, ip, port, depth, room);
    FitsAdd(r, p, e);
    FreshRanks(r, p, e);
    hide Target, Insert, InReach, Clean, Fits, Fresh, Held, Updated, Base, Overwrites;
    var mid := InsertUpdates(t, r, ip, port, depth, room);
    AddedHeld(mid, r, ip, e, t');
  }

  lemma FitsAdd(r: Routes, p: Pos, e: Entry)
    requires Fits(r) && Fresh(r, p, e)
    ensures Fits(r[p := e])
  {
    hide InRange, LevelOf;
  }

  lemma AddedHeld(mid: Trie, r: Routes, ip: nat, e: Entry, t': Trie)
    requires e.depth <= 32 && Fits(r) && Fresh(r, Target(ip, e.depth), e) && Clean(r, ip, e.depth)
    requires Held(mid, r, Base(Target(ip, e.depth)), LevelOf(e.depth))
    requires Updated(mid, t', e.port, e.depth, q => InReach(Target(ip, e.depth), q))
    ensures Held(t', r[Target(ip, e.depth) := e], 0, 0)
  {
    var r' := r[Target(ip, e.depth) := e];
    hide Target, Tabled, InRange, Longest, Fits, Fresh, Clean, Base, InReach, Held;
    forall q ensures HeldAt(t', r', 0, 0, q) {
      InsertedIn(mid, r, ip, e, t', q);
      if q in t' {
        InsertedIs(mid, r, ip, e, t', q);
        TabledAfter(r, Target(ip, e.depth), e, q);
        TabledTop(r', q);
      }
    }
    HeldIff(t', r', 0, 0);
  }

  lemma TabledTop(r: Routes, q: Pos)
    ensures Tabled(r, 0, 0, q) <==> RouteBelow(r, q)
  {
    hide RouteBelow;
  }

  lemma InsertedIn(mid: Trie, r: Routes, ip: nat, e: Entry, t': Trie, q: Pos)
    requires e.depth <= 32 && Held(mid, r, Base(Target(ip, e.depth)), LevelOf(e.depth))
    requires Updated(mid, t', e.port, e.depth, q => InReach(Target(ip, e.depth), q))
    ensures q in t' <==> InRange(q) && (q.l == 0 || Tabled(r[Target(ip, e.depth) := e], 0, 0, Up(q)))
  {
    hide Target, Tabled, InRange, Longest, Base, InReach;
    if q.l > 0 {
      TabledAfter(r, Target(ip, e.depth), e, Up(q));
      TabledTop(r[Target(ip, e.depth) := e], Up(q));
    }
  }

  lemma InsertedIs(mid: Trie, r: Routes, ip: nat, e: Entry, t': Trie, q: Pos)
    requires e.depth <= 32 && Fits(r) && Fresh(r, Target(ip, e.depth), e) && Clean(r, ip, e.depth)
    requires Held(mid, r, Base(Target(ip, e.depth)), LevelOf(e.depth)) && q in mid
    requires Updated(mid, t', e.port, e.depth, q => InReach(Target(ip, e.depth), q))
    ensures q in t' && t'[q] == if Tabled(r, Base(Target(ip, e.depth)), LevelOf(e.depth), q) then Inner
        else Longest(r[Target(ip, e.depth) := e], q)
  {
    var p := Target(ip, e.depth);
    HeldIs(mid, r, Base(p), p.l, q);
    UpdatedAt(mid, t', p, e.port, e.depth, q);
    LongestAdd(r, p, e, q);
    hide InRange, Target, Longest, RouteBelow, Clean, Under, Base, At, Held, Tabled, Updated, Fits, Fresh;
    if !mid[q].Inner? && Under(q, p) && !InReach(p, q) { NotReached(mid, r, ip, e, q); }
  }

  lemma HeldIs(t: Trie, r: Routes, b: nat, l: nat, q: Pos)
    requires Held(t, r, b, l) && q in t
    ensures q.l <= 4 && t[q] == if Tabled(r, b, l, q) then Inner else Longest(r, q)
  {
    hide Tabled, Longest;
  }

  // A prefix whose node holds a longer one already.

  /** Below a route the longest match is at least as long. */
  lemma {:induction false} LongestBelow(r: Routes, p: Pos, q: Pos)
    requires Fits(r) && p in r && Under(q, p)
    ensures Longest(r, q).Hop? && Longest(r, q).depth >= r[p].depth
    decreases q.l
  {
    assert q.l <= 4;
    hide Under, InRange;
    UnderUp(q, p);
    UnderLevel(q, p);
    if q != p {
      UnderLevel(Up(q), p);
      if q !in r { LongestBelow(r, p, Up(q)); }
    }
  }

  lemma RouteSheltered(r: Routes, ip: nat, depth: nat)
    requires depth <= 32 && ip < ADDRESSES && Target(ip, depth) in r
    ensures Sheltered(r, ip, LevelOf(depth))
  {
    hide RouteBelow, At, Base, Longest, Target;
    var l, b := LevelOf(depth), Base(Target(ip, depth));
    forall j | 0 <= j < l ensures RouteBelow(r, At(ip, j)) {
      LevelStep(depth, j);
      TargetPath(ip, depth, j);
      BelowOf(r, b, j, l);
    }
  }

  /** The insertion of a prefix whose node holds a longer one changes nothing, unless it overwrites it. */
  lemma OutrankedSame(t: Trie, r: Routes, ip: nat, port: int, depth: nat, room: nat)
    requires Represents(t, r) && Fits(r) && ip < ADDRESSES && depth <= 32 && room >= 4
    requires Outranked(r, Target(ip, depth), depth) && !Overwrites(r, Target(ip, depth), depth)
    ensures Insert(t, ip, port, depth, room) == t
  {
    var p, t' := Target(ip, depth), Insert(t, ip, port, depth, room);
    RouteSheltered(r, ip, depth);
    hide Represents, Held, Fits, Overwrites, Sheltered, Target, Insert, Base, RouteBelow, Longest, Updated, InReach;
    var mid := InsertUpdates(t, r, ip, port, depth, room);
    forall q ensures HeldAt(t', r, 0, 0, q) { OutrankedAt(mid, r, p, port, depth, t', q); }
    HeldIff(t', r, 0, 0);
    OneTrie(t, t', r) by { RepresentsIs(t', r); }
  }

  lemma RepresentsIs(t: Trie, r: Routes)
    requires Held(t, r, 0, 0)
    ensures Represents(t, r)
  {
    hide Held;
  }

  lemma OutrankedAt(mid: Trie, r: Routes, p: Pos, port: int, depth: nat, t': Trie, q: Pos)
    requires p.l <= 4 && Fits(r) && Outranked(r, p, depth) && Held(mid, r, Base(p), p.l)
    requires Updated(mid, t', port, depth, q => InReach(p, q))
    ensures HeldAt(t', r, 0, 0, q)
  {
    assert r[p := r[p]] == r;
    TabledAfter(r, p, r[p], q);
    TabledTop(r, q);
    if q.l > 0 {
      TabledAfter(r, p, r[p], Up(q));
      TabledTop(r, Up(q));
    }
    hide Fits, Longest, RouteBelow, Tabled, InRange, Base;
    if InReach(p, q) { LongestBelow(r, p, q); }
  }

  lemma {:induction false} DescendElsewhere(t: Trie, p: Pos, c: Cell, x: nat, l: nat)
    requires l <= 4 && p.l == 0 && At(x, 0) != p
    ensures Descend(t[p := c], x, l) == Descend(t, x, l)
    decreases 4 - l
  {
    hide Span;
    if l < 4 { DescendElsewhere(t, p, c, x, l + 1); }
  }

  /** At a first-level node without table the longer prefix is overwritten. */
  lemma OverwrittenAnswer(t: Trie, r: Routes, ip: nat, port: int, depth: nat, room: nat, x: nat)
    requires Represents(t, r) && ip < ADDRESSES && x < ADDRESSES && depth <= 32 &&
        Overwrites(r, Target(ip, depth), depth)
    ensures Covers(Target(ip, depth), x) ==> Best(r, x) == Some(r[Target(ip, depth)].port)
    ensures Lookup(Insert(t, ip, port, depth, room), x) ==
            if Covers(Target(ip, depth), x) then Some(port) else Best(r, x)
  {
    var p := At(ip, 0);
    assert depth <= 16 && Target(ip, depth) == p;
    FirstIn(t, r, 0, 0, ip);
    FirstIn(t, r, 0, 0, x);
    HeldSettledOr(t, r, ip);
    LookupBest(t, r, x);
    hide RouteBelow, Represents, Span, Best;
    if At(x, 0) != p { DescendElsewhere(t, p, Hop(depth, port), x, 0); }
  }

  lemma HeldSettledOr(t: Trie, r: Routes, ip: nat)
    requires Represents(t, r) && At(ip, 0) in t && At(ip, 0) in r && !RouteBelow(r, At(ip, 0))
    ensures t[At(ip, 0)] == Hop(r[At(ip, 0)].depth, r[At(ip, 0)].port)
  {
    hide RouteBelow, InRange;
  }

  // Every insertion.

  /**
    What an address is answered after an insertion: an exact account, if no node above the new route
    holds a next hop.
   */
  lemma AnswerAfter(t: Trie, r: Routes, ip: nat, port: int, depth: nat, room: nat, x: nat)
    requires Represents(t, r) && Fits(r) && ip < ADDRESSES && depth <= 32 && room >= 4 && x < ADDRESSES
    requires Sheltered(r, ip, LevelOf(depth))
    ensures var p := Target(ip, depth);
            Lookup(Insert(t, ip, port, depth, room), x) ==
            if Covers(p, x) && Overwrites(r, p, depth) then Some(port)
            else if Covers(p, x) && RouteBelow(r, At(x, Reach(p.l))) then Best(r, x)
            else Best(Merged(r, p, Entry(depth, port)), x)
  {
    var p, e := Target(ip, depth), Entry(depth, port);
    TargetInRange(ip, depth);
    hide Represents, Fits, Sheltered, Target, Insert, Lookup, At, Best, RouteBelow, Covers, InRange;
    if Overwrites(r, p, depth) {
      OverwrittenAnswer(t, r, ip, port, depth, room, x);
    } else if Outranked(r, p, depth) {
      OutrankedSame(t, r, ip, port, depth, room);
      LookupBest(t, r, x);
    } else {
      assert Fresh(r, p, e);
      AnswerFresh(t, r, ip, port, depth, room, x);
    }
  }

  /** The insertion is right: it overwrites no other port, and it is proper if there is no longer prefix at its node. */
  ghost predicate Sound(r: Routes, ip: nat, port: int, depth: nat)
    requires depth <= 32
  {
    var p := Target(ip, depth);
    if Outranked(r, p, depth) then Overwrites(r, p, depth) ==> r[p].port == port else Proper(r, ip, port, depth)
  }

  /** After any insertion every address gets the longest match if and only if the insertion is sound. */
  lemma InsertRightIff(t: Trie, r: Routes, ip: nat, port: int, depth: nat, room: nat)
    requires Represents(t, r) && Fits(r) && ip < ADDRESSES && depth <= 32 && room >= 4
    ensures AllLongest(Insert(t, ip, port, depth, room), Merged(r, Target(ip, depth), Entry(depth, port))) <==>
        Sound(r, ip, port, depth)
  {
    var p, e, t' := Target(ip, depth), Entry(depth, port), Insert(t, ip, port, depth, room);
    TargetInRange(ip, depth);
    TargetCovers(ip, depth);
    hide Represents, Fits, Target, Insert, Lookup, At, Best, RouteBelow, Covers, InRange, Proper, Base;
    if Overwrites(r, p, depth) {
      forall x: nat | x < ADDRESSES ensures
          (Covers(p, x) ==> Lookup(t', x) == Some(port) && Best(r, x) == Some(r[p].port)) &&
          (!Covers(p, x) ==> Lookup(t', x) == Best(r, x)) {
        OverwrittenAnswer(t, r, ip, port, depth, room, x);
      }
      assert Lookup(t', Base(p)) == Some(port) && Best(r, Base(p)) == Some(r[p].port);
    } else if Outranked(r, p, depth) {
      OutrankedSame(t, r, ip, port, depth, room);
      forall x: nat | x < ADDRESSES ensures Lookup(t', x) == Best(r, x) { LookupBest(t, r, x); }
    } else {
      assert Fresh(r, p, e);
      hide AllLongest;
      FreshRightIff(t, r, ip, port, depth, room);
    }
  }

  lemma TargetCovers(ip: nat, depth: nat)
    requires depth <= 32 && ip < ADDRESSES
    ensures Covers(Target(ip, depth), Base(Target(ip, depth)))
  {
    CoversBase(Target(ip, depth));
  }

  /** The insertion is right whatever the ports. */
  ghost predicate SoundForAll(r: Routes, ip: nat, depth: nat)
    requires depth <= 32
  {
    var p := Target(ip, depth);
    if Outranked(r, p, depth) then !Overwrites(r, p, depth) else Clean(r, ip, depth)
  }

  /** Such an insertion yields the trie that represents the routes with the new one. */
  lemma InsertAdds(t: Trie, r: Routes, ip: nat, port: int, depth: nat, room: nat)
    requires Represents(t, r) && Fits(r) && ip < ADDRESSES && depth <= 32 && room >= 4 && SoundForAll(r, ip, depth)
    ensures var r' := Merged(r, Target(ip, depth), Entry(depth, port));
        Represents(Insert(t, ip, port, depth, room), r') && Fits(r')
  {
    var p, e := Target(ip, depth), Entry(depth, port);
    TargetInRange(ip, depth);
    hide Represents, Fits, Target, Insert, InRange, Clean, RouteBelow;
    if Outranked(r, p, depth) {
      OutrankedSame(t, r, ip, port, depth, room);
    } else {
      assert Fresh(r, p, e);
      AddFresh(t, r, ip, port, depth, room);
    }
  }

  // Routes none of which is below another.

  ghost predicate Alone(r: Routes) { forall q, z :: q in r && z in r && Under(q, z) ==> q == z }

  /** Some route covers the address. */
  ghost predicate Covered(r: Routes, x: nat) { exists m :: 0 <= m <= 4 && At(x, m) in r }

  lemma AloneAbove(r: Routes, x: nat, j: nat)
    requires Alone(r) && j <= 4 && At(x, j) in r
    ensures !RouteBelow(r, At(x, j))
  {
    hide Under, At;
  }

  /** A full prefix may always replace the route at its node. */
  lemma FullFresh(r: Routes, ip: nat, l: nat, port: int)
    requires Fits(r) && ip < ADDRESSES && l <= 4
    ensures Target(ip, 16 + 4 * l) == At(ip, l) && Fresh(r, At(ip, l), Entry(16 + 4 * l, port))
  {
    hide Base;
    TargetAt(ip, 16 + 4 * l);
    InRangeAt(ip, l);
  }

  lemma ShelteredIff(r: Routes, ip: nat, l: nat)
    requires Alone(r) && l <= 4
    ensures Sheltered(r, ip, l) <==> forall j :: 0 <= j < l ==> At(ip, j) !in r
  {
    hide RouteBelow, At, Longest, Alone;
    if Sheltered(r, ip, l) {
      forall j | 0 <= j < l ensures At(ip, j) !in r {
        LongestIs(r, ip, j);
        if At(ip, j) in r { AloneAbove(r, ip, j); }
      }
    }
    if forall j :: 0 <= j < l ==> At(ip, j) !in r {
      forall j | 0 <= j < l ensures Longest(r, At(ip, j)) == Empty { LongestIs(r, ip, j); }
    }
  }

  lemma ReachedIffCovered(r: Routes, ip: nat, l: nat, port: int, x: nat)
    requires Alone(r) && l <= 4 && (forall j :: 0 <= j < l ==> At(ip, j) !in r) && Covers(At(ip, l), x)
    ensures Reached(r, At(ip, l), port, x) <==> Covered(r, x) || !RouteBelow(r, At(x, Reach(l)))
  {
    forall j | 0 <= j < l ensures At(x, j) !in r { CoversUp(ip, x, j, l); }
    hide RouteBelow, At, Longest, Alone;
    LongestIs(r, x, 4);
    if At(x, l) in r && RouteBelow(r, At(x, Reach(l))) {
      BelowUp(r, x, l, Reach(l));
      AloneAbove(r, x, l);
    }
  }

  /**
    If no route is below another, inserting a prefix of a full level leads to the longest match
    for every address if and only if no route is above it, and each of its addresses has a route
    already or no route below the level that the update reaches.
   */
  lemma InsertAloneIff(t: Trie, r: Routes, ip: nat, l: nat, port: int, room: nat)
    requires Represents(t, r) && Fits(r) && Alone(r) && ip < ADDRESSES && l <= 4 && room >= 4
    ensures AllLongest(Insert(t, ip, port, 16 + 4 * l, room), r[At(ip, l) := Entry(16 + 4 * l, port)])
            <==> && (forall j :: 0 <= j < l ==> At(ip, j) !in r)
                 && (forall x: nat :: x < ADDRESSES && Covers(At(ip, l), x) ==>
                     Covered(r, x) || !RouteBelow(r, At(x, Reach(l))))
  {
    hide Represents, Fits, Alone, At, Insert, AllLongest, RouteBelow, Covers, Target, Covered, Reached, Sheltered,
        Fresh;
    FullFresh(r, ip, l, port);
    FreshRightIff(t, r, ip, port, 16 + 4 * l, room);
    ShelteredIff(r, ip, l);
    if Sheltered(r, ip, l) {
      forall x: nat | x < ADDRESSES && Covers(At(ip, l), x)
        ensures Reached(r, At(ip, l), port, x) <==> Covered(r, x) || !RouteBelow(r, At(x, Reach(l))) {
        ReachedIffCovered(r, ip, l, port, x);
      }
    }
  }
}
