/**
  What the operations on the trie do to single nodes: which nodes an insertion changes, and how.
 */
module LpmCells {
  import opened Basics
  import opened LpmTrie

  /** The node at q is at or below p. */
  predicate Under(q: Pos, p: Pos) { p.l <= q.l <= 4 && Covers(p, Base(q)) }

  /** The positions above an address, seen from one of them. */
  lemma UnderAt(x: nat, m: nat, p: Pos)
    requires m <= 4
    ensures Under(At(x, m), p) <==> p.l <= m && Covers(p, x)
  {
    hide Span;
    CoversBase(At(x, m));
    if p.l <= m { CoversUp(x, Base(At(x, m)), p.l, m); }
  }

  /** A position and the one above it. */
  lemma UpAt(x: nat, m: nat)
    requires 0 < m <= 4
    ensures Up(At(x, m)) == At(x, m - 1)
  {
    ChildAt(x, m - 1);
  }

  /** The way from the top to a position is that of its first address. */
  lemma BaseAt(q: Pos)
    requires q.l <= 4
    ensures At(Base(q), q.l) == q
    ensures q.l > 0 ==> At(Base(q), q.l - 1) == Up(q)
  {
    CoversBase(q);
    if q.l > 0 { UpAt(Base(q), q.l); }
  }

  lemma UnderUp(q: Pos, p: Pos)
    requires q.l <= 4
    ensures Under(q, p) <==> q == p || (q.l > 0 && Under(Up(q), p))
  {
    BaseAt(q);
    hide Under, At, Base, Up;
    UnderAt(Base(q), q.l, p);
    if q.l > 0 { UnderAt(Base(q), q.l - 1, p); }
    if p.l == q.l { CoversLevel(p, q); }
  }

  lemma CoversLevel(p: Pos, q: Pos)
    requires q.l <= 4 && p.l == q.l
    ensures Covers(p, Base(q)) <==> p == q
  {
    BaseAt(q);
  }

  /** A node after an update. */
  function Upd(c: Cell, port: int, depth: nat): (r: Cell)
    ensures r.Inner? <==> c.Inner?
  {
    match c
    case Empty => Hop(depth, port)
    case Hop(d, _) => if d <= depth then Hop(depth, port) else c
    case Inner => c
  }

  /** Nodes other than those of the first level are in the table of the node above. */
  ghost predicate Tidy(t: Trie) { forall q :: q in t && q.l > 0 ==> Up(q) in t && t[Up(q)].Inner? }

  /** Exactly the nodes of a set are updated. */
  ghost predicate Updated(t: Trie, t': Trie, port: int, depth: nat, chosen: Pos -> bool) {
    && (forall q :: q in t' <==> q in t)
    && (forall q :: q in t ==> t'[q] == if chosen(q) then Upd(t[q], port, depth) else t[q])
  }

  lemma UpdatedTidy(t: Trie, t': Trie, port: int, depth: nat, chosen: Pos -> bool)
    requires Tidy(t) && Updated(t, t', port, depth, chosen)
    ensures Tidy(t')
  {
  }

  /** The nodes of a table from the i-th on. */
  predicate KidFrom(p: Pos, i: nat, q: Pos) { IsKid(p, q) && q.v % FIB_NEXT_SIZE >= i }

  lemma KidNext(p: Pos, i: nat, q: Pos)
    requires i < FIB_NEXT_SIZE
    ensures KidFrom(p, i, q) <==> q == Child(p, i) || KidFrom(p, i + 1, q)
    ensures !KidFrom(p, i + 1, Child(p, i)) && Up(Child(p, i)) == p && !KidFrom(p, FIB_NEXT_SIZE, q)
  {
  }

  lemma {:induction false} KidsCells(t: Trie, p: Pos, i: nat, port: int, depth: nat)
    requires i <= FIB_NEXT_SIZE
    ensures Updated(t, UpdateKids(t, p, i, port, depth), port, depth, q => KidFrom(p, i, q))
    decreases FIB_NEXT_SIZE - i
  {
    hide KidFrom;
    if i < FIB_NEXT_SIZE {
      var c := Child(p, i);
      var t1 := if c in t then UpdateLeaf(t, c, port, depth) else t;
      KidsCells(t1, p, i + 1, port, depth);
      forall q ensures KidFrom(p, i, q) <==> q == c || KidFrom(p, i + 1, q) { KidNext(p, i, q); }
      assert !KidFrom(p, i + 1, c) by { KidNext(p, i, c); }
    } else {
      forall q ensures !KidFrom(p, i, q) { KidNone(p, q); }
    }
  }

  lemma KidNone(p: Pos, q: Pos)
    ensures !KidFrom(p, FIB_NEXT_SIZE, q)
  {
  }

  lemma KidAll(p: Pos, q: Pos)
    ensures KidFrom(p, 0, q) <==> IsKid(p, q)
  {
  }

  predicate OneDown(p: Pos, q: Pos) { q == p || IsKid(p, q) }

  /** Updating a node changes that node and those of its table. */
  lemma NodeCells(t: Trie, p: Pos, port: int, depth: nat)
    requires Tidy(t) && p in t
    ensures Updated(t, UpdateNode(t, p, port, depth), port, depth, q => OneDown(p, q))
  {
    hide KidFrom, UpdateKids;
    if t[p].Inner? {
      KidsCells(t, p, 0, port, depth);
      forall q ensures KidFrom(p, 0, q) <==> IsKid(p, q) { KidAll(p, q); }
    }
  }

  lemma NodeOrNone(t: Trie, p: Pos, port: int, depth: nat)
    requires Tidy(t)
    ensures Updated(t, if p in t then UpdateNode(t, p, port, depth) else t, port, depth, q => OneDown(p, q))
  {
    if p in t { NodeCells(t, p, port, depth); }
  }

  /** A node, those of its table, and those of their tables. */
  predicate TwoDown(c: Pos, q: Pos) { q == c || IsKid(c, q) || (q.l > 0 && IsKid(c, Up(q))) }

  predicate GrandFrom(c: Pos, j: nat, q: Pos) { KidFrom(c, j, q) || (q.l > 0 && KidFrom(c, j, Up(q))) }

  lemma {:induction false} GrandCells(t: Trie, c: Pos, j: nat, port: int, depth: nat)
    requires Tidy(t) && j <= FIB_NEXT_SIZE
    ensures Updated(t, UpdateGrand(t, c, j, port, depth), port, depth, q => GrandFrom(c, j, q))
    decreases FIB_NEXT_SIZE - j
  {
    hide KidFrom, UpdateNode, OneDown, GrandFrom;
    if j < FIB_NEXT_SIZE {
      var d := Child(c, j);
      var t1 := if d in t then UpdateNode(t, d, port, depth) else t;
      NodeOrNone(t, d, port, depth);
      UpdatedTidy(t, t1, port, depth, q => OneDown(d, q));
      GrandCells(t1, c, j + 1, port, depth);
      forall q ensures GrandFrom(c, j, q) <==> OneDown(d, q) || GrandFrom(c, j + 1, q) { GrandNext(c, j, q); }
      forall q | OneDown(d, q) ensures !GrandFrom(c, j + 1, q) { GrandNext(c, j, q); }
    } else {
      forall q ensures !GrandFrom(c, j, q) { GrandNone(c, q); }
    }
  }

  lemma GrandNext(c: Pos, j: nat, q: Pos)
    requires j < FIB_NEXT_SIZE
    ensures var d := Child(c, j);
            && (GrandFrom(c, j, q) <==> OneDown(d, q) || GrandFrom(c, j + 1, q))
            && (OneDown(d, q) ==> !GrandFrom(c, j + 1, q))
  {
    hide KidFrom;
    KidNext(c, j, q);
    KidLevel(c, j + 1, q);
    if q.l > 0 {
      KidNext(c, j, Up(q));
      KidLevel(c, j + 1, Up(q));
    }
  }

  lemma KidLevel(c: Pos, j: nat, q: Pos)
    ensures KidFrom(c, j, q) ==> q.l == c.l + 1
  {
  }

  lemma GrandNone(c: Pos, q: Pos)
    ensures !GrandFrom(c, FIB_NEXT_SIZE, q)
  {
    KidNone(c, q);
    if q.l > 0 { KidNone(c, Up(q)); }
  }

  lemma OneCells(t: Trie, c: Pos, port: int, depth: nat)
    requires Tidy(t)
    ensures Updated(t, UpdateOne(t, c, port, depth), port, depth, q => TwoDown(c, q))
  {
    hide KidFrom, UpdateGrand;
    if c in t && t[c].Inner? {
      GrandCells(t, c, 0, port, depth);
      forall q ensures GrandFrom(c, 0, q) || q == c <==> TwoDown(c, q) {
        KidAll(c, q);
        if q.l > 0 { KidAll(c, Up(q)); }
      }
    }
  }

  /** The first three levels below a node, from the i-th node of its table on. */
  predicate BelowFrom(p: Pos, i: nat, q: Pos) {
    KidFrom(p, i, q) || (q.l > 0 && (KidFrom(p, i, Up(q)) || (Up(q).l > 0 && KidFrom(p, i, Up(Up(q))))))
  }

  lemma BelowNext(p: Pos, i: nat, q: Pos)
    requires i < FIB_NEXT_SIZE
    ensures var c := Child(p, i);
            && (BelowFrom(p, i, q) <==> TwoDown(c, q) || BelowFrom(p, i + 1, q))
            && (TwoDown(c, q) ==> !BelowFrom(p, i + 1, q))
  {
    hide KidFrom;
    KidNext(p, i, q);
    KidLevel(p, i + 1, q);
    if q.l > 0 {
      KidNext(p, i, Up(q));
      KidLevel(p, i + 1, Up(q));
      if Up(q).l > 0 {
        KidNext(p, i, Up(Up(q)));
        KidLevel(p, i + 1, Up(Up(q)));
      }
    }
  }

  lemma BelowNone(p: Pos, q: Pos)
    ensures !BelowFrom(p, FIB_NEXT_SIZE, q)
  {
    hide KidFrom;
    KidNone(p, q);
    if q.l > 0 {
      KidNone(p, Up(q));
      if Up(q).l > 0 { KidNone(p, Up(Up(q))); }
    }
  }

  lemma {:induction false} BelowCells(t: Trie, p: Pos, i: nat, port: int, depth: nat)
    requires Tidy(t) && i <= FIB_NEXT_SIZE
    ensures Updated(t, UpdateBelow(t, p, i, port, depth), port, depth, q => BelowFrom(p, i, q))
    decreases FIB_NEXT_SIZE - i
  {
    hide KidFrom, UpdateOne, BelowFrom, TwoDown;
    if i < FIB_NEXT_SIZE {
      var c := Child(p, i);
      var t1 := UpdateOne(t, c, port, depth);
      OneCells(t, c, port, depth);
      UpdatedTidy(t, t1, port, depth, q => TwoDown(c, q));
      BelowCells(t1, p, i + 1, port, depth);
      forall q ensures BelowFrom(p, i, q) <==> TwoDown(c, q) || BelowFrom(p, i + 1, q) { BelowNext(p, i, q); }
      forall q | TwoDown(c, q) ensures !BelowFrom(p, i + 1, q) { BelowNext(p, i, q); }
    } else {
      forall q ensures !BelowFrom(p, i, q) { BelowNone(p, q); }
    }
  }

  /** The level down to which an insertion at level l updates the nodes below. */
  function Reach(l: nat): (k: nat)
    requires l <= 4
    ensures l <= k <= 4
  {
    if l == 0 then 3 else if l < 4 then l + 1 else 4
  }

  predicate InReach(p: Pos, q: Pos) { p.l <= 4 && Under(q, p) && q.l <= Reach(p.l) }

  lemma ReachNode(p: Pos, q: Pos)
    requires 0 < p.l <= 4 && q.l <= 4
    ensures InReach(p, q) <==> OneDown(p, q)
  {
    hide Under;
    UnderUp(q, p);
    if q.l > 0 {
      UnderUp(Up(q), p);
      UnderLevel(Up(q), p);
    }
    UnderLevel(q, p);
  }

  lemma UnderLevel(q: Pos, p: Pos)
    ensures Under(q, p) ==> p.l <= q.l
    ensures Under(q, p) && p.l == q.l ==> p == q
  {
    if Under(q, p) && p.l == q.l { CoversLevel(p, q); }
  }

  lemma ReachFirst(p: Pos, q: Pos)
    requires p.l == 0 && q.l <= 4
    ensures InReach(p, q) <==> q == p || BelowFrom(p, 0, q)
  {
    hide Under;
    ReachUp(p, q);
    if q.l > 0 {
      ReachUp(p, Up(q));
      if Up(q).l > 0 {
        ReachUp(p, Up(Up(q)));
        if Up(Up(q)).l > 0 { ReachUp(p, Up(Up(Up(q)))); }
      }
    }
  }

  lemma ReachUp(p: Pos, q: Pos)
    requires q.l <= 4
    ensures Under(q, p) <==> q == p || (q.l > 0 && Under(Up(q), p))
    ensures KidFrom(p, 0, q) <==> q.l > 0 && Up(q) == p
    ensures Under(q, p) ==> p.l <= q.l
  {
    UnderUp(q, p);
  }

  /** The two tries have the same node at a position, or both have none. */
  predicate SameCell(t: Trie, t': Trie, q: Pos) { (q in t' <==> q in t) && (q in t ==> t'[q] == t[q]) }

  lemma {:induction false} KidsLocal(t: Trie, p: Pos, i: nat, port: int, depth: nat, q: Pos)
    requires i <= FIB_NEXT_SIZE && q.l <= p.l
    ensures SameCell(t, UpdateKids(t, p, i, port, depth), q)
    decreases FIB_NEXT_SIZE - i
  {
    if i < FIB_NEXT_SIZE {
      KidsLocal(if Child(p, i) in t then UpdateLeaf(t, Child(p, i), port, depth) else t, p, i + 1, port, depth, q);
    }
  }

  /** Updating a node does not concern other nodes of its level or above. */
  lemma UpdateLocal(t: Trie, c: Pos, port: int, depth: nat, q: Pos)
    requires c in t && q.l <= c.l && q != c
    ensures SameCell(t, UpdateNode(t, c, port, depth), q)
  {
    if t[c].Inner? { KidsLocal(t, c, 0, port, depth, q); }
  }

  lemma ExpandSame(t: Trie, p: Pos, q: Pos)
    requires p in t && q.l <= p.l && q != p
    ensures SameCell(t, Expand(t, p), q)
  {
    ExpandCells(t, p);
  }

  /** Inserting below a node does not concern other nodes of its level or above. */
  lemma {:induction false} InsertLocal(t: Trie, l: nat, ip: nat, port: int, depth: nat, room: nat, q: Pos)
    requires l < 4 && 16 + 4 * l < depth <= 32 && q.l <= l && q != At(ip, l)
    ensures SameCell(t, InsertFrom(t, l, ip, port, depth, room), q)
    decreases 4 - l
  {
    hide At, LastIndex, Expand, UpdateNode, IsKid;
    var p := At(ip, l);
    if p in t && (t[p].Inner? || room > 0) {
      var t', room' := if t[p].Inner? then t else Expand(t, p), if t[p].Inner? then room else room - 1;
      ExpandSame(t, p, q);
      if depth <= 20 + 4 * l {
        var c := Child(p, LastIndex(ip, l, depth));
        if c in t' { UpdateLocal(t', c, port, depth, q); }
      } else {
        InsertLocal(t', l + 1, ip, port, depth, room', q);
      }
    }
  }

  lemma {:induction false} DescendSkip(t: Trie, x: nat, k: nat, l: nat)
    requires k <= l <= 4 && forall j :: k <= j < l ==> At(x, j) in t && t[At(x, j)].Inner?
    ensures Descend(t, x, k) == Descend(t, x, l)
    decreases l - k
  {
    hide At;
    if k < l { DescendSkip(t, x, k + 1, l); }
  }

  lemma {:induction false} InsertSkip(t: Trie, k: nat, l: nat, ip: nat, port: int, depth: nat, room: nat)
    requires k <= l < 4 && 16 + 4 * l < depth <= 32 && forall j :: k <= j < l ==> At(ip, j) in t && t[At(ip, j)].Inner?
    ensures InsertFrom(t, k, ip, port, depth, room) == InsertFrom(t, l, ip, port, depth, room)
    decreases l - k
  {
    hide At, LastIndex, Expand;
    if k < l { InsertSkip(t, k + 1, l, ip, port, depth, room); }
  }

  lemma LookupEmpty(t: Trie, x: nat, l: nat)
    requires l <= 4 && At(x, l) in t && t[At(x, l)] == Empty && forall j :: 0 <= j < l ==>
        At(x, j) in t && t[At(x, j)].Inner?
    ensures Lookup(t, x) == None
  {
    hide At, Descend;
    DescendSkip(t, x, 0, l);
    DescendHere(t, x, l);
  }

  lemma DescendHere(t: Trie, x: nat, l: nat)
    requires l <= 4 && At(x, l) in t && !t[At(x, l)].Inner?
    ensures Descend(t, x, l) == if t[At(x, l)].Hop? then Some(t[At(x, l)].port) else None
  {
  }

  lemma ExpandedCell(t: Trie, p: Pos, q: Pos)
    requires p in t
    ensures IsKid(p, q) ==> q in Expand(t, p) && Expand(t, p)[q] == Empty
    ensures q in t && q.l <= p.l ==> q in Expand(t, p) && Expand(t, p)[q] == if q == p then Inner else t[q]
  {
    ExpandCells(t, p);
  }

  /** After the node got a table, the rest of the insertion concerns only the way of the prefix. */
  lemma BelowLocal(t: Trie, l: nat, ip: nat, port: int, depth: nat, room: nat, z: Pos)
    requires l < 4 && 16 + 4 * l < depth <= 32 && room >= 1 && At(ip, l) in t && !t[At(ip, l)].Inner?
    requires z.l <= l + 1 && z != (if depth <= 20 + 4 * l then Target(ip, depth) else At(ip, l + 1))
    ensures SameCell(Expand(t, At(ip, l)), InsertFrom(t, l, ip, port, depth, room), z)
  {
    hide At, LastIndex, Expand;
    var p := At(ip, l);
    var t' := Expand(t, p);
    if depth <= 20 + 4 * l {
      var c := Child(p, LastIndex(ip, l, depth));
      if c in t' { UpdateLocal(t', c, port, depth, z); }
    } else {
      InsertLocal(t', l + 1, ip, port, depth, room - 1, z);
    }
  }
}
