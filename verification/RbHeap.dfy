/** Nodes in memory and the predicates that tie them to the values of RbShape.
    Every node carries a ghost rank. Ranks increase strictly along the in-order sequence, so a
    subtree owns an interval of ranks and two disjoint intervals never share a node. */
module RbHeap {
  import opened RbShape

  type Key = k: int | 0 <= k < 0x1_0000_0000_0000_0000
  type Byte = b: int | 0 <= b < 256

  /** A tree node; `str` is the string of a string node and is unused by the other trees. */
  class Node {
    var key: Key
    var left: Node?
    var right: Node?
    var parent: Node?
    var red: bool
    var str: seq<Byte>
    ghost var rank: real
  }

  /** A node as it stands in the in-order sequence. */
  datatype Entry = Entry(node: Node, key: Key, str: seq<Byte>, rank: real)

  ghost function EntryOf(n: Node): Entry
    reads n
  {
    Entry(n, n.key, n.str, n.rank)
  }

  type Shape = Tree<Entry>
  type Hole = Ctx<Entry>

  /** The fields of a node as a value. */
  datatype Cell = Cell(key: Key, str: seq<Byte>, rank: real, left: Node?, right: Node?, parent: Node?, red: bool)

  type Memory = map<Node, Cell>

  ghost function CellOf(n: Node): Cell
    reads n
  {
    Cell(n.key, n.str, n.rank, n.left, n.right, n.parent, n.red)
  }

  ghost function Snapshot(region: set<Node>): (m: Memory)
    reads region
    ensures m.Keys == region
  {
    map n | n in region :: CellOf(n)
  }

  /** Ranks increase strictly and stay between `lo` and `hi`. */
  ghost predicate Ordered(t: Shape, lo: real, hi: real) {
    t.Br? ==>
      lo < t.item.rank < hi && Ordered(t.left, lo, t.item.rank) && Ordered(t.right, t.item.rank, hi)
  }

  /** The ranks a hole has room for lie strictly between Lo and Hi. */
  ghost function Lo(c: Hole): real {
    match c
    case Top => 0.0
    case InL(up, _, _, _) => Lo(up)
    case InR(_, item, _, _) => item.rank
  }

  ghost function Hi(c: Hole): real {
    match c
    case Top => 1.0
    case InL(_, item, _, _) => item.rank
    case InR(up, _, _, _) => Hi(up)
  }

  ghost predicate HoleOrdered(c: Hole) {
    match c
    case Top => true
    case InL(up, item, _, sib) => HoleOrdered(up) && Lo(up) < item.rank < Hi(up) && Ordered(sib, item.rank, Hi(up))
    case InR(up, item, _, sib) => HoleOrdered(up) && Lo(up) < item.rank < Hi(up) && Ordered(sib, Lo(up), item.rank)
  }

  /** The node a pointer to `t` holds: its root, or the sentinel `s`. */
  ghost function RootOf(t: Shape, s: Node): Node {
    if t.Leaf? then s else t.item.node
  }

  /** All fields of `n` but its parent. */
  ghost predicate Holds(m: Memory, item: Entry, red: bool, l: Node, r: Node, s: Node) {
    && item.node in m && item.node != s
    && m[item.node] == Cell(item.key, item.str, item.rank, l, r, m[item.node].parent, red)
  }

  ghost predicate ParentIs(m: Memory, t: Shape, p: Node) {
    t.Br? ==> t.item.node in m && m[t.item.node].parent == p
  }

  /** Memory holds shape `t`. The parent of its root is not constrained. */
  ghost predicate Linked(m: Memory, t: Shape, s: Node) {
    t.Br? ==>
      && Holds(m, t.item, t.red, RootOf(t.left, s), RootOf(t.right, s), s)
      && ParentIs(m, t.left, t.item.node) && ParentIs(m, t.right, t.item.node)
      && Linked(m, t.left, s) && Linked(m, t.right, s)
  }

  ghost predicate HoleParentIs(m: Memory, c: Hole, n: Node) {
    n in m && (!c.Top? ==> m[n].parent == c.item.node)
  }

  /** Memory holds context `c` below `top`, with `x` in the hole. */
  ghost predicate HoleLinked(m: Memory, c: Hole, x: Node, s: Node, top: Node) {
    if c.Top? then x == top else
    && Holds(m, c.item, c.red, if c.InL? then x else RootOf(c.sib, s), if c.InL? then RootOf(c.sib, s) else x, s)
    && ParentIs(m, c.sib, c.item.node) && HoleParentIs(m, c.up, c.item.node)
    && Linked(m, c.sib, s) && HoleLinked(m, c.up, c.item.node, s, top)
  }

  /** Memory below `top` is `Fill(c, t)`, seen from the hole of `c`. */
  ghost predicate At(m: Memory, c: Hole, t: Shape, s: Node, top: Node) {
    && HoleOrdered(c) && Ordered(t, Lo(c), Hi(c))
    && Linked(m, t, s)
    && HoleLinked(m, c, RootOf(t, s), s, top)
    && (t.Br? ==> HoleParentIs(m, c, t.item.node))
  }

  /** One step towards the root. */
  ghost function Up(c: Hole, t: Shape): Shape
    requires !c.Top?
  {
    if c.InL? then Br(t, c.item, c.red, c.sib) else Br(c.sib, c.item, c.red, t)
  }

  lemma {:induction false} AtUp(m: Memory, c: Hole, t: Shape, s: Node, top: Node)
    requires !c.Top?
    ensures At(m, c, t, s, top) <==> At(m, c.up, Up(c, t), s, top)
  {
  }

  /** Being at a hole and being at the root say the same of memory. */
  lemma {:induction false} AtFill(m: Memory, c: Hole, t: Shape, s: Node, top: Node)
    ensures At(m, c, t, s, top) <==> At(m, Top, Fill(c, t), s, top)
  {
    if !c.Top? {
      AtUp(m, c, t, s, top);
      AtFill(m, c.up, Up(c, t), s, top);
    }
  }

  /** Nothing changed strictly between two ranks. The sentinel has no place in the order. */
  ghost predicate SameIn(m: Memory, m': Memory, s: Node, lo: real, hi: real) {
    m.Keys <= m'.Keys && forall n <- m.Keys :: n != s && lo < m[n].rank < hi ==> m'[n] == m[n]
  }

  lemma {:induction false} LinkedSame(m: Memory, m': Memory, t: Shape, s: Node, lo: real, hi: real)
    requires Linked(m, t, s) && Ordered(t, lo, hi) && SameIn(m, m', s, lo, hi)
    ensures Linked(m', t, s)
  {
    if t.Br? {
      LinkedSame(m, m', t.left, s, lo, t.item.rank);
      LinkedSame(m, m', t.right, s, t.item.rank, hi);
    }
  }

  /** A subtree stays linked when only the parent of its root changes. */
  lemma {:induction false} LinkedNewParent(m: Memory, m': Memory, t: Shape, p: Node?, s: Node, lo: real, hi: real)
    requires t.Br? && Linked(m, t, s) && Ordered(t, lo, hi) && m.Keys <= m'.Keys
    requires m'[t.item.node] == m[t.item.node].(parent := p)
    requires SameIn(m, m', s, lo, t.item.rank) && SameIn(m, m', s, t.item.rank, hi)
    ensures Linked(m', t, s)
  {
    LinkedSame(m, m', t.left, s, lo, t.item.rank);
    LinkedSame(m, m', t.right, s, t.item.rank, hi);
  }

  lemma {:induction false} HoleSame(m: Memory, m': Memory, c: Hole, x: Node, s: Node, top: Node)
    requires HoleLinked(m, c, x, s, top) && HoleOrdered(c) && m.Keys <= m'.Keys
    requires forall n <- m.Keys :: n != s && !(Lo(c) < m[n].rank < Hi(c)) ==> m'[n] == m[n]
    ensures HoleLinked(m', c, x, s, top)
  {
    if !c.Top? {
      if c.InL? {
        LinkedSame(m, m', c.sib, s, c.item.rank, Hi(c.up));
      } else {
        LinkedSame(m, m', c.sib, s, Lo(c.up), c.item.rank);
      }
      HoleSame(m, m', c.up, c.item.node, s, top);
    }
  }

  /** A context stays linked when its hole gets another node. */
  lemma {:induction false} HoleNewChild(m: Memory, m': Memory, c: Hole, x: Node, x': Node, s: Node, top: Node)
    requires !c.Top? && HoleOrdered(c) && HoleLinked(m, c, x, s, top) && m.Keys <= m'.Keys
    requires m'[c.item.node] == if c.InL? then m[c.item.node].(left := x') else m[c.item.node].(right := x')
    requires forall n <- m.Keys :: n != s && n != c.item.node && !(Lo(c) < m[n].rank < Hi(c)) ==> m'[n] == m[n]
    ensures HoleLinked(m', c, x', s, top)
  {
    if c.InL? {
      LinkedSame(m, m', c.sib, s, c.item.rank, Hi(c.up));
    } else {
      LinkedSame(m, m', c.sib, s, Lo(c.up), c.item.rank);
    }
    HoleSame(m, m', c.up, c.item.node, s, top);
  }

  /** The root is in the hole exactly when nothing is above the hole. */
  lemma {:induction false} RootAbove(m: Memory, c: Hole, x: Node, s: Node, top: Node)
    requires HoleLinked(m, c, x, s, top) && HoleOrdered(c)
    ensures if c.Top? then top == x else top in m && top != s && (m[top].rank <= Lo(c) || Hi(c) <= m[top].rank)
  {
    if !c.Top? {
      RootAbove(m, c.up, c.item.node, s, top);
    }
  }

  /** What the code finds around the node in a hole. */
  lemma {:induction false} PlaceOf(region: set<Node>, c: Hole, t: Shape, s: Node, top: Node)
    requires t.Br? && At(Snapshot(region), c, t, s, top)
    ensures var x := t.item.node;
      && x in region && x != s && x.red == t.red && x.key == t.item.key && x.str == t.item.str && x.rank == t.item.rank
      && x.left == RootOf(t.left, s) && x.right == RootOf(t.right, s)
      && (c.Top? <==> x == top)
      && (!c.Top? ==> x.parent == c.item.node)
      && (x.left == s <==> t.left.Leaf?) && (x.right == s <==> t.right.Leaf?)
    ensures HolePlace(region, c, t.item.node, s)
  {
    RootAbove(Snapshot(region), c, t.item.node, s, top);
    HolePlaceOf(region, c, t, s, top);
    assert Linked(Snapshot(region), t.left, s) && Linked(Snapshot(region), t.right, s);
  }

  ghost predicate HolePlace(region: set<Node>, c: Hole, x: Node, s: Node)
    reads region
  {
    !c.Top? ==>
      var p := c.item.node;
      && p in region && p != s && p != x && p.red == c.red && p.rank == c.item.rank
      && (if c.InL? then p.left == x && p.right == RootOf(c.sib, s) else p.right == x && p.left == RootOf(c.sib, s))
      && (x != s || c.sib.Br? ==> RootOf(c.sib, s) != x)
      && (c.sib.Br? ==> c.sib.item.node in region && c.sib.item.node != s && c.sib.item.node.red == c.sib.red)
  }

  lemma {:induction false} HolePlaceOf(region: set<Node>, c: Hole, t: Shape, s: Node, top: Node)
    requires At(Snapshot(region), c, t, s, top)
    ensures HolePlace(region, c, RootOf(t, s), s)
    ensures c.Top? <==> RootOf(t, s) == top
  {
    var m := Snapshot(region);
    RootAbove(m, c, RootOf(t, s), s, top);
    if !c.Top? && c.sib.Br? {
      assert Linked(m, c.sib, s);
      assert m[c.sib.item.node].rank == c.sib.item.rank;
    }
  }

  lemma {:induction false} PaintedTree(m: Memory, m': Memory, red: bool, t: Shape, s: Node, lo: real, hi: real)
    requires t.Br? && Linked(m, t, s) && Ordered(t, lo, hi) && m'.Keys == m.Keys
    requires m'[t.item.node] == m[t.item.node].(red := red)
    requires forall n <- m.Keys :: n != t.item.node ==> m'[n] == m[n]
    ensures Linked(m', t.(red := red), s) && Ordered(t.(red := red), lo, hi)
  {
    LinkedSame(m, m', t.left, s, lo, t.item.rank);
    LinkedSame(m, m', t.right, s, t.item.rank, hi);
  }

  lemma {:induction false} PaintedAt(m: Memory, m': Memory, red: bool, c: Hole, t: Shape, s: Node, top: Node)
    requires t.Br? && At(m, c, t, s, top) && m'.Keys == m.Keys
    requires m'[t.item.node] == m[t.item.node].(red := red)
    requires forall n <- m.Keys :: n != t.item.node ==> m'[n] == m[n]
    ensures At(m', c, t.(red := red), s, top)
  {
    PaintedTree(m, m', red, t, s, Lo(c), Hi(c));
    assert m[t.item.node].rank == t.item.rank;
    hide Linked, Ordered, Lo, Hi, HoleOrdered;
    HoleSame(m, m', c, t.item.node, s, top);
  }
}
