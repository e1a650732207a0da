/**
  The trie in memory: a table for the first level, and an arena from which tables of sixteen
  nodes are taken.  The operations on memory do what the trie of values does.
 */
module LpmArena {
  import opened Basics
  import opened L3fwdRoutes
  import opened LpmTrie
  import opened LpmRoutes

  /** A node; `next` is the index of its table in the arena if it is not an end. */
  datatype Node = Node(valid: bool, end: bool, depth: nat, hop: int, next: nat)

  datatype Loc = Root(i: nat) | Sub(i: nat)

  datatype Mem = Mem(rt: seq<Node>, sub: seq<Node>) {
    predicate Has(a: Loc) { match a case Root(i) => i < |rt| case Sub(i) => i < |sub| }

    function Get(a: Loc): (n: Node)
      requires Has(a)
    {
      match a case Root(i) => rt[i] case Sub(i) => sub[i]
    }

    function Put(a: Loc, n: Node): (m: Mem)
      requires Has(a)
      ensures forall b :: m.Has(b) <==> Has(b)
      ensures m.Get(a) == n
      ensures forall b {:trigger m.Get(b)} :: Has(b) && b != a ==> m.Get(b) == Get(b)
    {
      match a case Root(i) => Mem(rt[i := n], sub) case Sub(i) => Mem(rt, sub[i := n])
    }
  }

  /** What a node means. */
  function Meaning(n: Node): (c: Cell) { if !n.end then Inner else if n.valid then Hop(n.depth, n.hop) else Empty }

  /** Where the node of a position is, given the tables of the nodes that have one. */
  function Where(tbl: map<Pos, nat>, p: Pos): (a: Loc)
    requires p.l > 0 ==> Up(p) in tbl
  {
    if p.l == 0 then Root(p.v) else Sub(FIB_NEXT_SIZE * tbl[Up(p)] + p.v % FIB_NEXT_SIZE)
  }

  /** Tables are different, and were taken from the arena. */
  ghost predicate Tables(tbl: map<Pos, nat>, used: nat) {
    && (forall p :: p in tbl ==> 1 <= tbl[p] <= used)
    && (forall p, q :: p in tbl && q in tbl && p != q ==> tbl[p] != tbl[q])
  }

  /** The node of a position is where it should be, and means what the trie says. */
  ghost predicate NodeOk(m: Mem, tbl: map<Pos, nat>, t: Trie, p: Pos)
    requires p in t
  {
    && (p.l > 0 ==> Up(p) in tbl) && m.Has(Where(tbl, p)) && Meaning(m.Get(Where(tbl, p))) == t[p]
    && (p in tbl <==> t[p].Inner?)
    && (p in tbl ==> m.Get(Where(tbl, p)).next == FIB_NEXT_SIZE * tbl[p])
  }

  /** Memory holds the trie. */
  ghost predicate Rep(m: Mem, tbl: map<Pos, nat>, used: nat, t: Trie) {
    && Shape(t) && Tables(tbl, used)
    && (forall p :: p in tbl ==> p in t)
    && (forall p :: p in t ==> NodeOk(m, tbl, t, p))
  }

  /** Different positions are at different places. */
  lemma WhereInjective(tbl: map<Pos, nat>, used: nat, p: Pos, q: Pos)
    requires Tables(tbl, used) && (p.l > 0 ==> Up(p) in tbl) && (q.l > 0 ==> Up(q) in tbl) && p != q
    ensures Where(tbl, p) != Where(tbl, q)
  {
    if p.l > 0 && q.l > 0 {
      SlotsDiffer(tbl[Up(p)], p.v % FIB_NEXT_SIZE, tbl[Up(q)], q.v % FIB_NEXT_SIZE);
    }
  }

  lemma SlotsDiffer(a: nat, i: nat, b: nat, j: nat)
    requires i < FIB_NEXT_SIZE && j < FIB_NEXT_SIZE && (a != b || i != j)
    ensures FIB_NEXT_SIZE * a + i != FIB_NEXT_SIZE * b + j
  {
  }

  /** Rewriting a node without table changes that node of the trie only. */
  lemma PutLeaf(m: Mem, tbl: map<Pos, nat>, used: nat, t: Trie, p: Pos, n: Node)
    requires Rep(m, tbl, used, t) && p in t && !t[p].Inner? && n.end
    ensures p.l > 0 ==> Up(p) in tbl
    ensures m.Has(Where(tbl, p)) && Rep(m.Put(Where(tbl, p), n), tbl, used, t[p := Meaning(n)])
  {
    assert NodeOk(m, tbl, t, p) && (p.l > 0 ==> Up(p) in tbl) && m.Has(Where(tbl, p));
    var a := Where(tbl, p);
    var m', t' := m.Put(a, n), t[p := Meaning(n)];
    LeafShape(t, p, Meaning(n));
    hide Shape, Where, Tables, Meaning, NodeOk;
    forall q | q in t' ensures NodeOk(m', tbl, t', q) {
      PutNodeOk(m, tbl, used, t, p, n, q);
    }
  }

  lemma PutNodeOk(m: Mem, tbl: map<Pos, nat>, used: nat, t: Trie, p: Pos, n: Node, q: Pos)
    requires Tables(tbl, used) && p in t && q in t && NodeOk(m, tbl, t, p) && NodeOk(m, tbl, t, q) && !t[p].Inner? &&
        n.end
    ensures NodeOk(m.Put(Where(tbl, p), n), tbl, t[p := Meaning(n)], q)
  {
    hide Where, Tables;
    if q != p { WhereInjective(tbl, used, p, q); }
  }

  lemma LeafShape(t: Trie, p: Pos, c: Cell)
    requires Shape(t) && p in t && !t[p].Inner? && !c.Inner?
    ensures Shape(t[p := c])
  {
  }

  /** Nodes of the trie are not in parts of the arena that were not taken yet. */
  lemma WhereBelow(tbl: map<Pos, nat>, used: nat, p: Pos)
    requires Tables(tbl, used) && (p.l > 0 ==> Up(p) in tbl)
    ensures Where(tbl, p).Sub? ==> Where(tbl, p).i < FIB_NEXT_SIZE * (used + 1)
  {
  }

  /** Memory after a node got the next table of the arena. */
  ghost predicate Extended(m: Mem, m': Mem, a: Loc, k: nat)
    requires m.Has(a)
  {
    && |m'.rt| == |m.rt| && |m'.sub| == |m.sub| && FIB_NEXT_SIZE * k + FIB_NEXT_SIZE <= |m.sub|
    && !m'.Get(a).end && m'.Get(a).next == FIB_NEXT_SIZE * k
    && (forall b :: m.Has(b) && b != a && (b.Sub? ==> b.i < FIB_NEXT_SIZE * k) ==> m'.Get(b) == m.Get(b))
    && (forall i :: FIB_NEXT_SIZE * k <= i < FIB_NEXT_SIZE * k + FIB_NEXT_SIZE ==> m'.sub[i].end && !m'.sub[i].valid)
  }

  lemma TablesGrow(tbl: map<Pos, nat>, used: nat, p: Pos)
    requires Tables(tbl, used) && p !in tbl
    ensures Tables(tbl[p := used + 1], used + 1)
  {
  }

  lemma SameWhere(tbl: map<Pos, nat>, p: Pos, k: nat, q: Pos)
    requires p !in tbl && (q.l > 0 ==> Up(q) in tbl)
    ensures Where(tbl[p := k], q) == Where(tbl, q)
  {
  }

  /** The old nodes after a new table. */
  lemma OldNodeOk(m: Mem, m': Mem, tbl: map<Pos, nat>, used: nat, t: Trie, p: Pos, q: Pos, t': Trie)
    requires Tables(tbl, used) && p in t && !t[p].Inner? && q in t
    requires NodeOk(m, tbl, t, p) && NodeOk(m, tbl, t, q) && Extended(m, m', Where(tbl, p), used + 1)
    requires q in t' && t'[q] == if q == p then Inner else t[q]
    ensures NodeOk(m', tbl[p := used + 1], t', q)
  {
    hide Where, Tables;
    WhereBelow(tbl, used, q);
    SameWhere(tbl, p, used + 1, q);
    if q != p { WhereInjective(tbl, used, p, q); }
  }

  lemma NewNodeOk(m: Mem, m': Mem, tbl: map<Pos, nat>, used: nat, t: Trie, p: Pos, q: Pos)
    requires Tables(tbl, used) && p in t && q !in t && IsKid(p, q) && m.Has(Where'(tbl, p)) &&
        Extended(m, m', Where'(tbl, p), used + 1)
    requires q in Expand(t, p) && Expand(t, p)[q] == Empty && q !in tbl && p !in tbl
    ensures NodeOk(m', tbl[p := used + 1], Expand(t, p), q)
  {
    hide Shape, Expand, KidCells;
    assert Up(q) == p && q != p;
  }

  function Where'(tbl: map<Pos, nat>, p: Pos): (a: Loc) { if p.l > 0 && Up(p) !in tbl then Root(0) else Where(tbl, p) }

  /** Taking a table for a node makes memory hold the expanded trie. */
  lemma ExpandRep(m: Mem, m': Mem, tbl: map<Pos, nat>, used: nat, t: Trie, p: Pos)
    requires Rep(m, tbl, used, t) && p in t && !t[p].Inner? && p.l < 4 && NodeOk(m, tbl, t, p)
    requires Extended(m, m', Where(tbl, p), used + 1)
    ensures Rep(m', tbl[p := used + 1], used + 1, Expand(t, p))
  {
    ExpandShape(t, p);
    ExpandCells(t, p);
    TablesGrow(tbl, used, p);
    var tbl', t' := tbl[p := used + 1], Expand(t, p);
    hide Shape, Expand, KidCells, Extended, Tables, IsKid, NodeOk;
    forall q | q in t' ensures NodeOk(m', tbl', t', q) {
      if q in t {
        OldNodeOk(m, m', tbl, used, t, p, q, t');
      } else {
        NewNodeOk(m, m', tbl, used, t, p, q);
      }
    }
  }

  lemma ChildOf(p: Pos, i: nat)
    requires i < FIB_NEXT_SIZE
    ensures IsKid(p, Child(p, i)) && Up(Child(p, i)) == p && Child(p, i).v % FIB_NEXT_SIZE == i
  {
  }

  /** What memory says about a node of the trie. */
  lemma RepNode(m: Mem, tbl: map<Pos, nat>, used: nat, t: Trie, p: Pos)
    requires Rep(m, tbl, used, t) && p in t
    ensures p.l <= 4 && (p.l > 0 ==> Up(p) in tbl) && m.Has(Where(tbl, p)) && NodeOk(m, tbl, t, p)
    ensures (m.Get(Where(tbl, p)).end <==> !t[p].Inner?) && Meaning(m.Get(Where(tbl, p))) == t[p]
    ensures t[p].Inner? ==> p.l < 4 && p in tbl && m.Get(Where(tbl, p)).next == FIB_NEXT_SIZE * tbl[p]
  {
    assert NodeOk(m, tbl, t, p);
  }

  /** The nodes of a table. */
  lemma RepKid(m: Mem, tbl: map<Pos, nat>, used: nat, t: Trie, p: Pos, i: nat)
    requires Rep(m, tbl, used, t) && p in t && t[p].Inner? && i < FIB_NEXT_SIZE
    ensures p in tbl && Child(p, i) in t && Up(Child(p, i)) in tbl && Child(p, i) != p
    ensures Where(tbl, Child(p, i)) == Sub(FIB_NEXT_SIZE * tbl[p] + i)
  {
    assert NodeOk(m, tbl, t, p);
    ChildOf(p, i);
  }

  /** A node of a table, where it is. */
  lemma RepStep(m: Mem, tbl: map<Pos, nat>, used: nat, t: Trie, p: Pos, i: nat)
    requires Rep(m, tbl, used, t) && p in t && t[p].Inner? && i < FIB_NEXT_SIZE
    ensures p in tbl && Child(p, i) in t && Up(Child(p, i)) in tbl
    ensures Where(tbl, Child(p, i)) == Sub(FIB_NEXT_SIZE * tbl[p] + i) && m.Has(Where(tbl, Child(p, i)))
  {
    hide Rep, NodeOk, Where, Up;
    RepKid(m, tbl, used, t, p, i);
    RepNode(m, tbl, used, t, Child(p, i));
  }

  /** The first n first-level positions. */
  ghost function Roots(n: nat): (s: set<Pos>)
    ensures forall p :: p in s <==> p.l == 0 && p.v < n
  {
    if n == 0 then {} else Roots(n - 1) + {Pos(0, n - 1)}
  }

  lemma RootsInitial(t: Trie)
    requires t == map p | p in Roots(FIRST) :: Empty
    ensures Initial(t)
  {
    hide Roots;
  }

  lemma InitialRep(m: Mem, t: Trie)
    requires Initial(t) && |m.rt| == FIRST && forall i :: 0 <= i < FIRST ==> m.rt[i].end && !m.rt[i].valid
    ensures Rep(m, map[], 0, t)
  {
    forall p | p in t ensures NodeOk(m, map[], t, p) {}
  }

  /** Inserting below a node that has a table. */
  lemma InsertInner(t: Trie, l: nat, ip: nat, port: int, depth: nat, room: nat)
    requires l < 4 && 16 + 4 * l < depth <= 32 && At(ip, l) in t && t[At(ip, l)].Inner?
    ensures depth <= 20 + 4 * l && Child(At(ip, l), LastIndex(ip, l, depth)) in t ==>
              InsertFrom(t, l, ip, port, depth, room) == UpdateNode(t, Child(At(ip, l), LastIndex(ip, l, depth)),
                  port, depth)
    ensures depth > 20 + 4 * l ==>
        InsertFrom(t, l, ip, port, depth, room) == InsertFrom(t, l + 1, ip, port, depth, room)
  {
  }

  /** Inserting below a node without a table. */
  lemma InsertEnd(t: Trie, l: nat, ip: nat, port: int, depth: nat, room: nat)
    requires l < 4 && 16 + 4 * l < depth <= 32 && At(ip, l) in t && !t[At(ip, l)].Inner?
    ensures room == 0 ==> InsertFrom(t, l, ip, port, depth, room) == t
    ensures room > 0 ==>
        InsertFrom(t, l, ip, port, depth, room) == InsertFrom(Expand(t, At(ip, l)), l, ip, port, depth, room - 1)
  {
    hide LastIndex, UpdateNode;
    ExpandedInner(t, At(ip, l));
  }

  function Min(a: nat, b: nat): (m: nat) { if a <= b then a else b }

  /** Taking the k-th table clears the nodes up to here: as many as lie before it, from its beginning on. */
  function ClearEnd(k: nat): (n: nat) { 2 * FIB_NEXT_SIZE * k }

  /** Bytes of the arena, and of a node with 64-bit pointers. */
  const FIB_SUB_COUNT := 16384
  const ARENA_BYTES := FIB_NEXT_SIZE * FIB_SUB_COUNT
  const NODE_BYTES := 16
  const ARENA_NODES := ARENA_BYTES / NODE_BYTES

  /** Size of the route database. */
  const MAX_DB := 32

  /** The nodes that are cleared when the next table is taken. */
  predicate Clears(fibIdx: nat, n: nat) { FIB_NEXT_SIZE * (fibIdx + 1) <= n < ClearEnd(fibIdx + 1) }

  /** All of them lie in the arena if and only if the last one does. */
  lemma ClearsInside(fibIdx: nat, length: nat)
    ensures (forall n: nat :: Clears(fibIdx, n) ==> n < length) <==> ClearEnd(fibIdx + 1) <= length
  {
    assert Clears(fibIdx, ClearEnd(fibIdx + 1) - 1);
  }

  /** Of the reserved bytes only the first 512 of the 16384 tables can be taken, which is enough for a full database. */
  lemma ReservedTables(k: nat)
    ensures ClearEnd(k) <= ARENA_NODES <==> k <= 512
    ensures ClearEnd(4 * MAX_DB) <= ARENA_NODES < ClearEnd(FIB_SUB_COUNT)
  {
  }

  /** Memory after a table was cleared, its node made to lead there, and next hop and depth copied to the table. */
  lemma GrownExtended(m: Mem, m1: Mem, m2: Mem, a: Loc, k: nat, n: Node)
    requires k > 0 && m1.rt == m.rt && |m1.sub| == |m2.sub| == |m.sub| && |m2.rt| == |m.rt|
    requires FIB_NEXT_SIZE * k + FIB_NEXT_SIZE <= |m.sub|
    requires forall i :: 0 <= i < |m.sub| ==>
        m1.sub[i] == if Clears(k - 1, i) then m.sub[i].(valid := false, end := true) else m.sub[i]
    requires m.Has(a) && m1.Has(a) && (a.Sub? ==> a.i < FIB_NEXT_SIZE * k) && !n.end && n.next == FIB_NEXT_SIZE * k
    requires m2.rt == m1.Put(a, n).rt
    requires forall i :: 0 <= i < |m.sub| && !(FIB_NEXT_SIZE * k <= i < FIB_NEXT_SIZE * k + FIB_NEXT_SIZE) ==>
        m2.sub[i] == m1.Put(a, n).sub[i]
    requires forall i :: FIB_NEXT_SIZE * k <= i < FIB_NEXT_SIZE * k + FIB_NEXT_SIZE ==>
        m2.sub[i].end == m1.Put(a, n).sub[i].end && m2.sub[i].valid == m1.Put(a, n).sub[i].valid
    ensures Extended(m, m2, a, k)
  {
  }

  class Fib {
    const rtTbl: array<Node>
    const nodes: array<Node>
    const fibCount: nat
    var fibIdx: nat
    ghost var tbl: map<Pos, nat>
    ghost var trie: Trie

    constructor (fibCount: nat, length: nat)
      ensures Valid() && fibIdx == 0 && this.fibCount == fibCount && nodes.Length == length
      ensures Initial(trie) && fresh(rtTbl) && fresh(nodes)
    {
      hide Rep, Roots, Initial;
      this.fibCount := fibCount;
      rtTbl := new Node[FIRST](i => Node(false, true, 0, 0, 0));
      nodes := new Node[length](i => Node(false, false, 0, 0, 0));
      fibIdx := 0;
      tbl := map[];
      trie := map p | p in Roots(FIRST) :: Empty;
      new;
      RootsInitial(trie);
      InitialRep(M(), trie);
    }

    ghost function M(): (m: Mem)
      reads rtTbl, nodes
    {
      Mem(rtTbl[..], nodes[..])
    }

    ghost predicate Valid()
      reads this, rtTbl, nodes
    {
      && rtTbl != nodes && rtTbl.Length == FIRST
      && fibIdx <= fibCount && Rep(M(), tbl, fibIdx, trie)
    }

    /** The next n tables, as far as there are so many, can be taken without clearing beyond the arena. */
    ghost predicate RoomFor(n: nat)
      reads this
    {
      ClearEnd(Min(fibIdx + n, fibCount)) <= nodes.Length
    }

    function Read(a: Loc): (n: Node)
      requires match a case Root(i) => i < rtTbl.Length case Sub(i) => i < nodes.Length
      reads rtTbl, nodes
      ensures M().Has(a) && n == M().Get(a)
    {
      match a case Root(i) => rtTbl[i] case Sub(i) => nodes[i]
    }

    method Write(a: Loc, n: Node)
      requires rtTbl != nodes && match a case Root(i) => i < rtTbl.Length case Sub(i) => i < nodes.Length
      modifies rtTbl, nodes
      ensures old(M()).Has(a) && M() == old(M()).Put(a, n)
    {
      match a {
        case Root(i) =>
          rtTbl[i] := n;
          assert rtTbl[..] == old(rtTbl[..])[i := n];
        case Sub(i) =>
          nodes[i] := n;
          assert nodes[..] == old(nodes[..])[i := n];
      }
    }

    /**
      Take the next table of the arena, if there is one; from its beginning on, as many nodes are
      cleared as lie before it.
     */
    method FibAllocSub() returns (sub: nat)
      requires fibIdx <= fibCount && RoomFor(1)
      modifies `fibIdx, nodes
      ensures old(fibIdx) == fibCount ==> sub == 0 && fibIdx == old(fibIdx) && nodes[..] == old(nodes[..])
      ensures old(fibIdx) < fibCount ==>
          fibIdx == old(fibIdx) + 1 && sub == FIB_NEXT_SIZE * fibIdx && sub + FIB_NEXT_SIZE <= nodes.Length
      ensures old(fibIdx) < fibCount ==> forall i :: 0 <= i < nodes.Length ==>
                nodes[i] == if Clears(old(fibIdx), i) then old(nodes[i]).(valid := false, end := true)
                    else old(nodes[i])
    {
      sub := 0;
      if fibIdx < fibCount {
        var nbEntry := (fibIdx + 1) * FIB_NEXT_SIZE;
        sub := nbEntry;
        fibIdx := fibIdx + 1;
        for i := 0 to nbEntry
          invariant fibIdx == old(fibIdx) + 1
          invariant forall j :: 0 <= j < nodes.Length ==>
                      nodes[j] == if sub <= j < sub + i then old(nodes[j]).(valid := false, end := true)
                          else old(nodes[j])
        {
          nodes[sub + i] := nodes[sub + i].(valid := false, end := true);
        }
      }
    }

    /** Update a node without table. */
    method UpdateEnd(a: Loc, port: int, depth: nat, ghost p: Pos)
      requires Valid() && p in trie && !trie[p].Inner? && (p.l > 0 ==> Up(p) in tbl) && a == Where(tbl, p) && M().Has(a)
      modifies `trie, rtTbl, nodes
      ensures Valid() && trie == UpdateLeaf(old(trie), p, port, depth)
    {
      hide Rep, NodeOk, Where;
      RepNode(M(), tbl, fibIdx, trie, p);
      var fe := Read(a);
      if !fe.valid || fe.depth <= depth {
        var n := fe.(depth := depth, hop := port, valid := true);
        PutLeaf(M(), tbl, fibIdx, trie, p, n);
        Write(a, n);
        trie := trie[p := Hop(depth, port)];
      }
    }

    /** Update a node, or those nodes of its table that have no table themselves. */
    method FibUpdateNode(a: Loc, port: int, depth: nat, ghost p: Pos)
      requires Valid() && p in trie && (p.l > 0 ==> Up(p) in tbl) && a == Where(tbl, p) && M().Has(a)
      modifies `trie, rtTbl, nodes
      ensures Valid() && trie == UpdateNode(old(trie), p, port, depth)
      ensures forall q: Pos :: q.l <= p.l && q != p && q in old(trie) ==> q in trie && trie[q] == old(trie)[q]
    {
      hide Rep, NodeOk, Where, UpdateKids;
      RepNode(M(), tbl, fibIdx, trie, p);
      var fe := Read(a);
      if fe.end {
        UpdateEnd(a, port, depth, p);
        return;
      }
      assert fe.next == FIB_NEXT_SIZE * tbl[p];
      UpdateTable(fe.next, port, depth, p);
    }

    /** Update the nodes of a table that have no table themselves. */
    method UpdateTable(next: nat, port: int, depth: nat, ghost p: Pos)
      requires Valid() && p in trie && trie[p].Inner? && p in tbl && next == FIB_NEXT_SIZE * tbl[p]
      modifies `trie, rtTbl, nodes
      ensures Valid() && trie == UpdateKids(old(trie), p, 0, port, depth)
      ensures forall q: Pos :: q.l <= p.l && q in old(trie) ==> q in trie && trie[q] == old(trie)[q]
    {
      hide Rep, NodeOk, Where, UpdateKids;
      for i := 0 to FIB_NEXT_SIZE
        invariant Valid() && p in trie && trie[p].Inner?
        invariant UpdateKids(old(trie), p, 0, port, depth) == UpdateKids(trie, p, i, port, depth)
        invariant forall q: Pos :: q.l <= p.l && q in old(trie) ==> q in trie && trie[q] == old(trie)[q]
      {
        var a := Sub(next + i);
        ghost var c := Child(p, i);
        RepKid(M(), tbl, fibIdx, trie, p, i);
        RepNode(M(), tbl, fibIdx, trie, c);
        KidsStep(trie, p, i, port, depth);
        if Read(a).end { UpdateEnd(a, port, depth, c); }
      }
      KidsStep(trie, p, FIB_NEXT_SIZE, port, depth);
    }

    /** Copy next hop and depth to the nodes of a table. */
    method Inherit(sub: nat, hop: int, depth: nat)
      requires sub + FIB_NEXT_SIZE <= nodes.Length
      modifies nodes
      ensures forall i :: 0 <= i < nodes.Length && !(sub <= i < sub + FIB_NEXT_SIZE) ==> nodes[i] == old(nodes[i])
      ensures forall i :: sub <= i < sub + FIB_NEXT_SIZE ==> nodes[i] == old(nodes[i]).(hop := hop, depth := depth)
    {
      for i := 0 to FIB_NEXT_SIZE
        invariant forall j :: 0 <= j < nodes.Length && !(sub <= j < sub + i) ==> nodes[j] == old(nodes[j])
        invariant forall j :: sub <= j < sub + i ==> nodes[j] == old(nodes[j]).(hop := hop, depth := depth)
      {
        nodes[sub + i] := nodes[sub + i].(hop := hop, depth := depth);
      }
    }

    /**
      Give a node the next table of the arena; the nodes of the table get next hop and depth of the
      node, but are not marked valid.
     */
    method GrowTable(a: Loc, ghost p: Pos) returns (ok: bool)
      requires Valid() && p in trie && !trie[p].Inner? && p.l < 4 && (p.l > 0 ==> Up(p) in tbl) &&
          a == Where(tbl, p) && M().Has(a) && RoomFor(1)
      modifies this, rtTbl, nodes
      ensures Valid() && ok == (old(fibIdx) < fibCount)
      ensures !ok ==> trie == old(trie) && fibIdx == old(fibIdx) && tbl == old(tbl)
      ensures ok ==>
        trie == Expand(old(trie), p) && fibIdx == old(fibIdx) + 1 && p in tbl &&
        tbl == old(tbl)[p := fibIdx]
      ensures ok ==> M().Has(a) && M().Get(a).next == FIB_NEXT_SIZE * fibIdx && !M().Get(a).end
    {
      hide Rep, NodeOk, Where, Expand, Shape, Min, Tables;
      RepNode(M(), tbl, fibIdx, trie, p);
      WhereFits(M(), tbl, fibIdx, trie, p);
      ghost var m := M();
      var fe := Read(a);
      var sub := FibAllocSub();
      if sub == 0 { return false; }
      ghost var m1 := M();
      Write(a, fe.(next := sub, end := false));
      if fe.valid { Inherit(sub, fe.hop, fe.depth); }
      GrownExtended(m, m1, M(), a, fibIdx, fe.(next := sub, end := false));
      ExpandRep(m, M(), tbl, fibIdx - 1, trie, p);
      trie := Expand(trie, p);
      tbl := tbl[p := fibIdx];
      ok := true;
    }

    /** The last step of an insertion: the remaining bits choose the node to update. */
    method FibInsertLast(next: nat, ip: nat, nextHop: int, width: nat, depth: nat, ghost full: nat, ghost l: nat)
      requires Valid() && l < 4 && 16 + 4 * l < depth <= 20 + 4 * l && width == 32 - depth && ip == full % Span(l)
      requires var p := At(full, l); p in trie && trie[p].Inner? && p in tbl && next == FIB_NEXT_SIZE * tbl[p]
      modifies `trie, rtTbl, nodes
      ensures var c := Child(At(full, l), LastIndex(full, l, depth));
              Valid() && c in old(trie) && trie == UpdateNode(old(trie), c, nextHop, depth)
    {
      hide Rep, NodeOk, Where, At, UpdateNode, Span, Pow2, LastIndex;
      ghost var p := At(full, l);
      var idx := Div(ip, Pow2(width));
      LastIs(full, l, depth);
      LastIndexFits(full, l, depth);
      RepStep(M(), tbl, fibIdx, trie, p, idx);
      FibUpdateNode(Sub(next + idx), nextHop, depth, Child(p, idx));
    }

    /**
      Insert below a node of level l; ip holds the remaining bits of the address, of which there
      are ipWidth, and eatBits have been used.
     */
    method FibInsertNode(a: Loc, ip: nat, nextHop: int, ipWidth: nat, eatBits: nat, depth: nat, ghost full: nat,
        ghost l: nat)
      requires Valid() && l < 4 && ipWidth == 16 - 4 * l && eatBits == 16 + 4 * l < depth <= 32 && ip == full % Span(l)
      requires var p := At(full, l); p in trie && (p.l > 0 ==> Up(p) in tbl) && a == Where(tbl, p) && M().Has(a)
      requires RoomFor(4 - l)
      modifies this, rtTbl, nodes
      ensures Valid() && trie == InsertFrom(old(trie), l, full, nextHop, depth, fibCount - old(fibIdx))
      ensures fibIdx <= old(fibIdx) + 4 - l
      decreases 4 - l
    {
      hide Rep, NodeOk, Where, Expand, At, UpdateNode, Span, Pow2, LastIndex, InsertFrom;
      ghost var p := At(full, l);
      RepNode(M(), tbl, fibIdx, trie, p);
      if Read(a).end {
        InsertEnd(trie, l, full, nextHop, depth, fibCount - fibIdx);
        var ok := GrowTable(a, p);
        if !ok { return; }
        ExpandedInner(old(trie), p);
      }
      RepNode(M(), tbl, fibIdx, trie, p);
      InsertInner(trie, l, full, nextHop, depth, fibCount - fibIdx);
      var next := Read(a).next;
      if depth - eatBits <= 4 {
        var width := ipWidth - (depth - eatBits);
        FibInsertLast(next, ip, nextHop, width, depth, full, l);
      } else {
        var width := ipWidth - 4;
        var idx := Div(ip, Pow2(width));
        StepIs(full, l);
        ChildAt(full, l);
        RepStep(M(), tbl, fibIdx, trie, p, idx);
        FibInsertNode(Sub(next + idx), ip % Pow2(width), nextHop, width, eatBits + 4, depth, full, l + 1);
      }
    }

    /** Insert a prefix. */
    method FibTblInsert(ip: nat, port: int, depth: nat)
      requires Valid() && ip < ADDRESSES && depth <= 32 && RoomFor(4)
      modifies this, rtTbl, nodes
      ensures Valid() && trie == Insert(old(trie), ip, port, depth, fibCount - old(fibIdx)) && fibIdx <= old(fibIdx) + 4
    {
      hide Rep, NodeOk, InsertFrom, UpdateBelow, UpdateGrand, UpdateLeaf, UpdateNode;
      var idx := ip / FIRST;
      ghost var p := At(ip, 0);
      RepRoot(M(), tbl, fibIdx, trie, ip);
      RepNode(M(), tbl, fibIdx, trie, p);
      var a := Root(idx);
      if depth <= 16 {
        var fe := Read(a);
        if fe.end {
          var n := fe.(hop := port, depth := depth, valid := true);
          PutLeaf(M(), tbl, fibIdx, trie, p, n);
          Write(a, n);
          trie := trie[p := Hop(depth, port)];
          return;
        }
        UpdateTwoLevels(fe.next, port, depth, p);
        return;
      }
      FibInsertNode(a, ip % FIRST, port, 16, 16, depth, ip, 0);
    }

    /** Update the nodes of a first-level table; where such a node has a table, the nodes of that table. */
    method UpdateTwoLevels(next: nat, port: int, depth: nat, ghost p: Pos)
      requires Valid() && p in trie && trie[p].Inner? && p in tbl && next == FIB_NEXT_SIZE * tbl[p]
      modifies `trie, rtTbl, nodes
      ensures Valid() && trie == UpdateBelow(old(trie), p, 0, port, depth)
    {
      hide Rep, NodeOk, Where, UpdateBelow, UpdateGrand;
      for i := 0 to FIB_NEXT_SIZE
        invariant Valid() && p in trie && trie[p].Inner?
        invariant UpdateBelow(old(trie), p, 0, port, depth) == UpdateBelow(trie, p, i, port, depth)
      {
        var a := Sub(next + i);
        ghost var c := Child(p, i);
        RepKid(M(), tbl, fibIdx, trie, p, i);
        RepNode(M(), tbl, fibIdx, trie, c);
        BelowStep(trie, p, i, port, depth);
        var fe := Read(a);
        if fe.end {
          UpdateEnd(a, port, depth, c);
        } else {
          UpdateOneTable(fe.next, port, depth, c);
        }
      }
      BelowStep(trie, p, FIB_NEXT_SIZE, port, depth);
    }

    /** Update the nodes of a table, or of their tables. */
    method UpdateOneTable(next: nat, port: int, depth: nat, ghost c: Pos)
      requires Valid() && c in trie && trie[c].Inner? && c in tbl && next == FIB_NEXT_SIZE * tbl[c]
      modifies `trie, rtTbl, nodes
      ensures Valid() && trie == UpdateGrand(old(trie), c, 0, port, depth)
      ensures forall q: Pos :: q.l <= c.l && q in old(trie) ==> q in trie && trie[q] == old(trie)[q]
    {
      hide Rep, NodeOk, Where, UpdateGrand, UpdateNode;
      for j := 0 to FIB_NEXT_SIZE
        invariant Valid() && c in trie && trie[c].Inner?
        invariant UpdateGrand(old(trie), c, 0, port, depth) == UpdateGrand(trie, c, j, port, depth)
        invariant forall q: Pos :: q.l <= c.l && q in old(trie) ==> q in trie && trie[q] == old(trie)[q]
      {
        RepKid(M(), tbl, fibIdx, trie, c, j);
        RepNode(M(), tbl, fibIdx, trie, Child(c, j));
        GrandStep(trie, c, j, port, depth);
        FibUpdateNode(Sub(next + j), port, depth, Child(c, j));
      }
      GrandStep(trie, c, FIB_NEXT_SIZE, port, depth);
    }

    /** Insert a list of prefixes. */
    method LoadRoutes(ps: seq<Prefix>) returns (ghost rooms: seq<nat>)
      requires Valid() && (forall i :: 0 <= i < |ps| ==> ps[i].InRange()) && RoomFor(4 * |ps|)
      modifies this, rtTbl, nodes
      ensures Valid() && |rooms| == |ps| && trie == Build(old(trie), ps, rooms)
      ensures 4 * |ps| <= fibCount - old(fibIdx) ==> forall i :: 0 <= i < |ps| ==> rooms[i] >= 4
    {
      hide Rep, Insert;
      rooms := [];
      for i := 0 to |ps|
        invariant Valid() && |rooms| == i && fibIdx <= old(fibIdx) + 4 * i
        invariant trie == Build(old(trie), ps[..i], rooms)
        invariant 4 * |ps| <= fibCount - old(fibIdx) ==> forall j :: 0 <= j < i ==> rooms[j] >= 4
      {
        ghost var room := fibCount - fibIdx;
        FibTblInsert(ps[i].ip, ps[i].port, ps[i].depth);
        BuildStep(old(trie), ps, i, rooms, room);
        rooms := rooms + [room];
      }
      assert ps[..|ps|] == ps;
    }

    /** Look an address up: the port, if a node with a next hop is reached. */
    method FibTblLookup(ip0: nat) returns (found: bool, port: int)
      requires Valid() && ip0 < ADDRESSES
      ensures Lookup(trie, ip0) == if found then Some(port) else None
    {
      hide Rep, NodeOk, Where, At, Span, Pow2, Descend;
      ghost var l := 0;
      var nbBits, ip := 16, ip0 % FIRST;
      var a := Root(ip0 / FIRST);
      RepRoot(M(), tbl, fibIdx, trie, ip0);
      RepNode(M(), tbl, fibIdx, trie, At(ip0, 0));
      FirstSpan();
      while !Read(a).end
        invariant l <= 4 && nbBits == 16 - 4 * l && ip == ip0 % Span(l)
        invariant var p := At(ip0, l); p in trie && (p.l > 0 ==> Up(p) in tbl) && a == Where(tbl, p) && M().Has(a)
        invariant Descend(trie, ip0, 0) == Descend(trie, ip0, l)
        decreases 4 - l
      {
        ghost var p := At(ip0, l);
        RepNode(M(), tbl, fibIdx, trie, p);
        nbBits := nbBits - 4;
        var idx := Div(ip, Pow2(nbBits));
        StepIs(ip0, l);
        ChildAt(ip0, l);
        RepKid(M(), tbl, fibIdx, trie, p, idx);
        RepNode(M(), tbl, fibIdx, trie, Child(p, idx));
        DescendStep(trie, ip0, l);
        a := Sub(Read(a).next + idx);
        ip := ip % Pow2(nbBits);
        l := l + 1;
      }
      RepNode(M(), tbl, fibIdx, trie, At(ip0, l));
      DescendStep(trie, ip0, l);
      found, port := Read(a).valid, Read(a).hop;
    }
  }

  /**
    The program's table: a database of at most MAX_DB routes in the reserved arena.  No node
    beyond the arena is written, and if all prefixes end at a level boundary and all insertions are
    clean, every address gets the longest match of the list.
   */
  method SetUp(ps: seq<Prefix>) returns (fib: Fib)
    requires |ps| <= MAX_DB && forall i :: 0 <= i < |ps| ==> ps[i].InRange()
    ensures fresh(fib) && fib.Valid() && fib.fibCount == FIB_SUB_COUNT && fib.nodes.Length == ARENA_NODES
    ensures AllValid(ps) && CleanAll(ps) ==> AnswersAs(fib.trie, ps)
  {
    hide CleanAll, AnswersAs, Fib.Valid, Build, Initial;
    fib := new Fib(FIB_SUB_COUNT, ARENA_NODES);
    ghost var t := fib.trie;
    ghost var rooms := fib.LoadRoutes(ps);
    if AllValid(ps) && CleanAll(ps) { BuildRight(t, ps, rooms); }
  }

  lemma BuildStep(t: Trie, ps: seq<Prefix>, i: nat, rooms: seq<nat>, room: nat)
    requires i < |ps| && |rooms| == i && forall j :: 0 <= j < |ps| ==> ps[j].InRange()
    ensures Build(t, ps[..i + 1], rooms +
        [room]) == Insert(Build(t, ps[..i], rooms), ps[i].ip, ps[i].port, ps[i].depth, room)
  {
    assert ps[..i + 1][..i] == ps[..i] && (rooms + [room])[..i] == rooms;
  }

  lemma FirstSpan()
    ensures Span(0) == FIRST
  {
  }

  lemma DescendStep(t: Trie, ip: nat, l: nat)
    requires l <= 4 && At(ip, l) in t
    ensures t[At(ip, l)].Inner? && l < 4 ==> Descend(t, ip, l) == Descend(t, ip, l + 1)
    ensures !t[At(ip, l)].Inner? ==> Descend(t, ip, l) == if t[At(ip, l)].Hop? then Some(t[At(ip, l)].port) else None
  {
  }

  lemma RepRoot(m: Mem, tbl: map<Pos, nat>, used: nat, t: Trie, ip: nat)
    requires Rep(m, tbl, used, t) && ip < ADDRESSES
    ensures At(ip, 0) in t && Where'(tbl, At(ip, 0)) == Root(ip / FIRST) &&
        Where(tbl, At(ip, 0)) == Root(ip / FIRST) && ip / FIRST < FIRST
  {
  }

  lemma BelowStep(t: Trie, p: Pos, i: nat, port: int, depth: nat)
    requires i <= FIB_NEXT_SIZE
    ensures i == FIB_NEXT_SIZE ==> UpdateBelow(t, p, i, port, depth) == t
    ensures i < FIB_NEXT_SIZE ==>
        UpdateBelow(t, p, i, port, depth) == UpdateBelow(UpdateOne(t, Child(p, i), port, depth), p, i + 1, port, depth)
  {
  }

  lemma GrandStep(t: Trie, c: Pos, j: nat, port: int, depth: nat)
    requires j <= FIB_NEXT_SIZE
    ensures j == FIB_NEXT_SIZE ==> UpdateGrand(t, c, j, port, depth) == t
    ensures j < FIB_NEXT_SIZE && Child(c, j) in t ==>
              UpdateGrand(t, c, j, port, depth) == UpdateGrand(UpdateNode(t, Child(c, j), port, depth), c, j +
                  1, port, depth)
  {
  }

  lemma ExpandedInner(t: Trie, p: Pos)
    requires p in t
    ensures p in Expand(t, p) && Expand(t, p)[p] == Inner
  {
    ExpandCells(t, p);
  }

  lemma LastIs(full: nat, l: nat, depth: nat)
    requires l < 4 && 16 + 4 * l < depth <= 20 + 4 * l
    ensures Div(full % Span(l), Pow2(32 - depth)) == LastIndex(full, l, depth)
  {
  }

  /** Shifting and masking the remaining bits gives the index and the bits that remain. */
  lemma StepIs(full: nat, l: nat)
    requires l < 4
    ensures Div(full % Span(l), Pow2(12 - 4 * l)) == Index(full, l) < FIB_NEXT_SIZE
    ensures full % Span(l) % Pow2(12 - 4 * l) == full % Span(l + 1)
  {
    SpanIs(l);
    ModMod(full);
    hide Pow2;
  }

  lemma ModMod(x: nat)
    ensures x % 0x1_0000 % 0x1000 == x % 0x1000
    ensures x % 0x1000 % 0x100 == x % 0x100
    ensures x % 0x100 % 0x10 == x % 0x10
  {
    DivUnique(x, 0x1000, 16 * (x / 0x1_0000) + x % 0x1_0000 / 0x1000, x % 0x1_0000 % 0x1000);
    DivUnique(x, 0x100, 16 * (x / 0x1000) + x % 0x1000 / 0x100, x % 0x1000 % 0x100);
    DivUnique(x, 0x10, 16 * (x / 0x100) + x % 0x100 / 0x10, x % 0x100 % 0x10);
  }

  lemma SpanIs(l: nat)
    requires l < 4
    ensures Pow2(12 - 4 * l) == Span(l + 1) && Span(l) == FIB_NEXT_SIZE * Span(l + 1)
  {
    Powers();
  }

  lemma WhereFits(m: Mem, tbl: map<Pos, nat>, used: nat, t: Trie, p: Pos)
    requires Rep(m, tbl, used, t) && p in t && (p.l > 0 ==> Up(p) in tbl)
    ensures Where(tbl, p).Sub? ==> Where(tbl, p).i < FIB_NEXT_SIZE * (used + 1)
  {
    WhereBelow(tbl, used, p);
  }

  lemma KidsStep(t: Trie, p: Pos, i: nat, port: int, depth: nat)
    requires i <= FIB_NEXT_SIZE
    ensures i == FIB_NEXT_SIZE ==> UpdateKids(t, p, i, port, depth) == t
    ensures i < FIB_NEXT_SIZE && Child(p, i) in t ==>
              UpdateKids(t, p, i, port, depth) == UpdateKids(UpdateLeaf(t, Child(p, i), port, depth), p, i +
                  1, port, depth)
  {
  }
}
