/**
  The multi-level trie for longest prefix match, on values: a first level of 16 bits and four
  levels of 4 bits.  A position is a level and the prefix that leads there.
 */
module LpmTrie {
  import opened Basics
  import opened L3fwdRoutes

  const FIRST := 0x1_0000
  const FIB_NEXT_SIZE := 16

  datatype Pos = Pos(l: nat, v: nat)

  /** A node: without next hop, with one, or with a table of its own. */
  datatype Cell = Empty | Hop(depth: nat, port: int) | Inner

  type Trie = map<Pos, Cell>

  /** Addresses below a position of level l. */
  function Span(l: nat): (n: nat)
    requires l <= 4
    ensures n > 0
  {
    match l
    case 0 => 0x1_0000
    case 1 => 0x1000
    case 2 => 0x100
    case 3 => 0x10
    case _ => 1
  }

  /** The position of an address at a level. */
  function At(ip: nat, l: nat): (p: Pos)
    requires l <= 4
    ensures p.l == l
  {
    Pos(l, ip / Span(l))
  }

  function Child(p: Pos, i: nat): (c: Pos) { Pos(p.l + 1, FIB_NEXT_SIZE * p.v + i) }

  /** The index of the next level, taken from the remaining bits of the address. */
  function Index(ip: nat, l: nat): (i: nat)
    requires l < 4
    ensures i < FIB_NEXT_SIZE
  {
    ip % Span(l) / Span(l + 1)
  }

  lemma ChildAt(ip: nat, l: nat)
    requires l < 4
    ensures At(ip, l + 1) == Child(At(ip, l), Index(ip, l))
    ensures At(ip, l + 1).v / FIB_NEXT_SIZE == At(ip, l).v
  {
    match l
    case 0 =>
    case 1 =>
    case 2 =>
    case _ =>
  }

  predicate Covers(p: Pos, ip: nat) { p.l <= 4 && At(ip, p.l) == p }

  function Up(p: Pos): (q: Pos)
    requires p.l > 0
  {
    Pos(p.l - 1, p.v / FIB_NEXT_SIZE)
  }

  predicate IsKid(p: Pos, q: Pos) { q.l > 0 && Up(q) == p }

  /** First-level nodes are there, and exactly the nodes with a table have children. */
  ghost predicate Shape(t: Trie) {
    && (forall v: nat :: v < FIRST ==> Pos(0, v) in t)
    && (forall p :: p in t ==> p.l <= 4 && (p.l > 0 ==> Up(p) in t && t[Up(p)].Inner?))
    && (forall p :: p in t && t[p].Inner? ==> p.l < 4)
    && (forall p, q :: p in t && t[p].Inner? && IsKid(p, q) ==> q in t)
  }

  /** Follow an address down to the first node without a table. */
  function Descend(t: Trie, ip: nat, l: nat): (r: Option<int>)
    requires l <= 4
    decreases 4 - l
  {
    if At(ip, l) !in t then None
    else match t[At(ip, l)]
      case Empty => None
      case Hop(_, port) => Some(port)
      case Inner => if l < 4 then Descend(t, ip, l + 1) else None
  }

  function Lookup(t: Trie, ip: nat): (r: Option<int>) { Descend(t, ip, 0) }

  /** Give a node a table of nodes without next hop; what the node had is lost. */
  function Expand(t: Trie, p: Pos): (r: Trie) { t[p := Inner] + KidCells(p) }

  function KidSet(p: Pos, n: nat): (s: set<Pos>)
    requires n <= FIB_NEXT_SIZE
    ensures forall q :: q in s <==> IsKid(p, q) && q.v % FIB_NEXT_SIZE < n
  {
    if n == 0 then {} else KidSet(p, n - 1) + {Child(p, n - 1)}
  }

  function KidCells(p: Pos): (m: map<Pos, Cell>)
    ensures forall q {:trigger q in m} :: q in m <==> IsKid(p, q)
    ensures forall q {:trigger m[q]} :: q in m ==> m[q] == Empty
  {
    map q | q in KidSet(p, FIB_NEXT_SIZE) :: Empty
  }

  /** Set the next hop of a node without table, unless it has one of a longer prefix. */
  function UpdateLeaf(t: Trie, p: Pos, port: int, depth: nat): (r: Trie)
    requires p in t
  {
    match t[p]
    case Empty => t[p := Hop(depth, port)]
    case Hop(d, _) => if d <= depth then t[p := Hop(depth, port)] else t
    case Inner => t
  }

  /** ... of the nodes of a table, from the i-th on. */
  function UpdateKids(t: Trie, p: Pos, i: nat, port: int, depth: nat): (r: Trie)
    requires i <= FIB_NEXT_SIZE
    decreases FIB_NEXT_SIZE - i
  {
    if i == FIB_NEXT_SIZE then t
    else UpdateKids(if Child(p, i) in t then UpdateLeaf(t, Child(p, i), port, depth) else t, p, i + 1, port, depth)
  }

  function UpdateNode(t: Trie, p: Pos, port: int, depth: nat): (r: Trie)
    requires p in t
  {
    if t[p].Inner? then UpdateKids(t, p, 0, port, depth) else UpdateLeaf(t, p, port, depth)
  }

  /** ... of the nodes of a first-level table and of the tables below. */
  function UpdateBelow(t: Trie, p: Pos, i: nat, port: int, depth: nat): (r: Trie)
    requires i <= FIB_NEXT_SIZE
    decreases FIB_NEXT_SIZE - i
  {
    if i == FIB_NEXT_SIZE then t
    else UpdateBelow(UpdateOne(t, Child(p, i), port, depth), p, i + 1, port, depth)
  }

  function UpdateOne(t: Trie, c: Pos, port: int, depth: nat): (r: Trie) {
    if c !in t then t else if t[c].Inner? then UpdateGrand(t, c, 0, port, depth) else UpdateLeaf(t, c, port, depth)
  }

  function UpdateGrand(t: Trie, c: Pos, j: nat, port: int, depth: nat): (r: Trie)
    requires j <= FIB_NEXT_SIZE
    decreases FIB_NEXT_SIZE - j
  {
    if j == FIB_NEXT_SIZE then t
    else UpdateGrand(if Child(c, j) in t then UpdateNode(t, Child(c, j), port, depth) else t, c, j + 1, port, depth)
  }

  function Div(a: nat, b: nat): (q: nat)
    requires b > 0
  {
    a / b
  }

  /** The index used for the last, possibly partial, step of a prefix. */
  function LastIndex(ip: nat, l: nat, depth: nat): (i: nat)
    requires l < 4 && 16 + 4 * l < depth <= 20 + 4 * l
  {
    Div(ip % Span(l), Pow2(32 - depth))
  }

  /** Insert below the node of level l; without room for a table the insertion stops. */
  function InsertFrom(t: Trie, l: nat, ip: nat, port: int, depth: nat, room: nat): (r: Trie)
    requires l < 4 && 16 + 4 * l < depth <= 32
    decreases 4 - l
  {
    var p := At(ip, l);
    if p !in t then t
    else if !t[p].Inner? && room == 0 then t
    else
      var t', room' := if t[p].Inner? then t else Expand(t, p), if t[p].Inner? then room else room - 1;
      if depth <= 20 + 4 * l then
        var c := Child(p, LastIndex(ip, l, depth));
        if c in t' then UpdateNode(t', c, port, depth) else t'
      else InsertFrom(t', l + 1, ip, port, depth, room')
  }

  function Insert(t: Trie, ip: nat, port: int, depth: nat, room: nat): (r: Trie)
    requires depth <= 32
  {
    var p := At(ip, 0);
    if depth > 16 then InsertFrom(t, 0, ip, port, depth, room)
    else if p !in t then t
    else if t[p].Inner? then UpdateBelow(t, p, 0, port, depth)
    else t[p := Hop(depth, port)]
  }

  /** The level of an aligned prefix. */
  predicate Aligned(depth: nat) { depth in {16, 20, 24, 28, 32} }

  function Level(depth: nat): (l: nat)
    requires Aligned(depth)
    ensures l <= 4 && depth == 16 + 4 * l
  {
    (depth - 16) / 4
  }

  /** For aligned prefixes the last step is a full one. */
  lemma LastStep(ip: nat, l: nat, depth: nat)
    requires l < 4 && depth == 20 + 4 * l
    ensures LastIndex(ip, l, depth) == Index(ip, l)
  {
    assert Pow2(12) == 0x1000 && Pow2(8) == 0x100 && Pow2(4) == 0x10 && Pow2(0) == 1;
  }

  /** The first address of a position. */
  function Base(p: Pos): (ip: nat)
    requires p.l <= 4
  {
    p.v * Span(p.l)
  }

  lemma CoversBase(p: Pos)
    requires p.l <= 4
    ensures Covers(p, Base(p))
  {
    match p.l
    case 0 =>
    case 1 =>
    case 2 =>
    case 3 =>
    case _ =>
  }

  /** An address on the way of a position is on the way of all addresses below. */
  lemma CoversUp(ip: nat, ip': nat, l: nat, m: nat)
    requires l <= m <= 4 && At(ip, m) == At(ip', m)
    ensures At(ip, l) == At(ip', l)
    decreases m - l
  {
    if l < m {
      ChildAt(ip, m - 1);
      ChildAt(ip', m - 1);
      CoversUp(ip, ip', l, m - 1);
    }
  }

  /** What a new table changes. */
  lemma ExpandCells(t: Trie, p: Pos)
    requires p in t
    ensures forall q :: q in Expand(t, p) <==> q in t || IsKid(p, q)
    ensures forall q :: q in Expand(t, p) ==> Expand(t, p)[q] == if IsKid(p, q) then Empty else if q == p then Inner
        else t[q]
  {
    hide IsKid, KidCells;
    assert !IsKid(p, p) by { KidDiffers(p); }
  }

  lemma KidDiffers(p: Pos)
    ensures !IsKid(p, p)
  {
  }

  /** A new table keeps the shape. */
  lemma ExpandShape(t: Trie, p: Pos)
    requires Shape(t) && p in t && !t[p].Inner? && p.l < 4
    ensures Shape(Expand(t, p)) && forall q :: IsKid(p, q) ==> q !in t
  {
    hide Expand;
    ExpandCells(t, p);
  }

  /** The level at which a prefix ends up. */
  function LevelOf(depth: nat): (l: nat)
    ensures depth <= 32 ==> l <= 4
  {
    if depth <= 16 then 0 else (depth - 17) / 4 + 1
  }

  /**
    The node at which a prefix ends up: on the way of its address, except that the last step uses
    the remaining bits only.
   */
  function Target(ip: nat, depth: nat): (p: Pos)
    requires depth <= 32
    ensures p.l == LevelOf(depth)
  {
    if depth <= 16 then At(ip, 0) else
      var l := (depth - 17) / 4;
      Child(At(ip, l), LastIndex(ip, l, depth))
  }

  lemma TargetAt(ip: nat, depth: nat)
    requires Aligned(depth)
    ensures Target(ip, depth) == At(ip, Level(depth))
  {
    if depth > 16 {
      var l := (depth - 17) / 4;
      LastStep(ip, l, depth);
      ChildAt(ip, l);
    }
  }

  /** The index of the last step fits a table. */
  lemma LastIndexFits(ip: nat, l: nat, depth: nat)
    requires l < 4 && 16 + 4 * l < depth <= 20 + 4 * l
    ensures LastIndex(ip, l, depth) < FIB_NEXT_SIZE
  {
    Powers();
  }

  /** The powers of two that are needed. */
  lemma Powers()
    ensures Pow2(0) == 1 && Pow2(1) == 2 && Pow2(2) == 4 && Pow2(3) == 8
    ensures Pow2(4) == 0x10 && Pow2(5) == 0x20 && Pow2(6) == 0x40 && Pow2(7) == 0x80
    ensures Pow2(8) == 0x100 && Pow2(9) == 0x200 && Pow2(10) == 0x400 && Pow2(11) == 0x800
    ensures Pow2(12) == 0x1000 && Pow2(13) == 0x2000 && Pow2(14) == 0x4000 && Pow2(15) == 0x8000 && Pow2(16) == 0x1_0000
  {
  }

  /** The target lies on the way of the address down to the level above it. */
  lemma TargetPath(ip: nat, depth: nat, k: nat)
    requires 16 < depth <= 32 && k <= (depth - 17) / 4
    ensures At(Base(Target(ip, depth)), Target(ip, depth).l) == Target(ip, depth)
    ensures At(Base(Target(ip, depth)), k) == At(ip, k)
  {
    var l, c := (depth - 17) / 4, Target(ip, depth);
    LastIndexFits(ip, l, depth);
    CoversBase(c);
    ChildAt(Base(c), l);
    CoversUp(Base(c), ip, k, l);
  }
}
