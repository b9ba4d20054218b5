/** The two rotations: what they do to memory, and the methods that do it in place. */
module RbRotate {
  import opened RbShape
  import opened RbHeap
  import opened RbOrder

  ghost function RotatedLeft(t: Shape): Shape
    requires t.Br? && t.right.Br?
  {
    Br(Br(t.left, t.item, t.red, t.right.left), t.right.item, t.right.red, t.right.right)
  }

  ghost function RotatedRight(t: Shape): Shape
    requires t.Br? && t.left.Br?
  {
    Br(t.left.left, t.left.item, t.left.red, Br(t.left.right, t.item, t.red, t.right))
  }

  ghost predicate LeftRotated(m: Memory, m': Memory, c: Hole, t: Shape)
    requires t.Br? && t.right.Br? && {t.item.node, t.right.item.node} <= m.Keys
  {
    var x, y, b := t.item.node, t.right.item.node, t.right.left;
    && m'.Keys == m.Keys
    && m'[x] == m[x].(right := m[y].left, parent := y)
    && m'[y] == m[y].(left := x, parent := m[x].parent)
    && (b.Br? ==> b.item.node in m && m'[b.item.node] == m[b.item.node].(parent := x))
    && (c.InL? ==> c.item.node in m && m'[c.item.node] == m[c.item.node].(left := y))
    && (c.InR? ==> c.item.node in m && m'[c.item.node] == m[c.item.node].(right := y))
    && forall n <- m.Keys :: n != x && n != y && (b.Br? ==> n != b.item.node) && (!c.Top? ==> n != c.item.node) ==>
      m'[n] == m[n]
  }

  /** The ranks of the nodes a left rotation writes. */
  ghost predicate LeftRanks(m: Memory, c: Hole, t: Shape)
    requires t.Br? && t.right.Br?
  {
    var b, x, y := t.right.left, t.item, t.right.item;
    && x.node in m && y.node in m && m[x.node].rank == x.rank && m[y.node].rank == y.rank
    && Lo(c) < x.rank < y.rank < Hi(c)
    && (b.Br? ==> b.item.node in m && m[b.item.node].rank == b.item.rank && x.rank < b.item.rank < y.rank)
    && (!c.Top? ==> c.item.node in m && m[c.item.node].rank == if c.InL? then Hi(c) else Lo(c))
  }

  lemma {:induction false} LeftRanksHold(m: Memory, c: Hole, t: Shape, s: Node, top: Node)
    requires t.Br? && t.right.Br? && At(m, c, t, s, top)
    ensures LeftRanks(m, c, t)
    ensures Linked(m, t.right, s) && Linked(m, t.right.left, s) && Linked(m, t.right.right, s)
    ensures Ordered(t.right.left, t.item.rank, t.right.item.rank) && Ordered(t.right.right, t.right.item.rank, Hi(c))
  {
    assert Linked(m, t.right, s) && Ordered(t.right, t.item.rank, Hi(c));
    assert Linked(m, t.right.left, s) && Ordered(t.right.left, t.item.rank, t.right.item.rank);
  }

  /** What a left rotation leaves alone. */
  lemma {:induction false} LeftRotatedSame(m: Memory, m': Memory, c: Hole, t: Shape, s: Node)
    requires t.Br? && t.right.Br? && LeftRanks(m, c, t) && LeftRotated(m, m', c, t)
    ensures var b, x, y := t.right.left, t.item, t.right.item;
      && SameIn(m, m', s, Lo(c), x.rank) && SameIn(m, m', s, y.rank, Hi(c))
      && (b.Br? ==>
        && m'[b.item.node] == m[b.item.node].(parent := x.node)
        && SameIn(m, m', s, x.rank, b.item.rank) && SameIn(m, m', s, b.item.rank, y.rank))
      && (!c.Top? ==>
        && m'[c.item.node] == (if c.InL? then m[c.item.node].(left := y.node) else m[c.item.node].(right := y.node))
        && forall n <- m.Keys :: n != s && n != c.item.node && !(Lo(c) < m[n].rank < Hi(c)) ==> m'[n] == m[n])
  {
  }

  lemma {:induction false} LeftRotatedTree(m: Memory, m': Memory, c: Hole, t: Shape, s: Node, top: Node)
    requires t.Br? && t.right.Br? && At(m, c, t, s, top)
    requires {t.item.node, t.right.item.node} <= m.Keys && LeftRotated(m, m', c, t)
    ensures Linked(m', RotatedLeft(t), s) && Ordered(RotatedLeft(t), Lo(c), Hi(c))
  {
    LeftRanksHold(m, c, t, s, top);
    LeftRotatedSame(m, m', c, t, s);
    var a, b, d := t.left, t.right.left, t.right.right;
    var x, y := t.item, t.right.item;
    LinkedSame(m, m', a, s, Lo(c), x.rank);
    LinkedSame(m, m', d, s, y.rank, Hi(c));
    if b.Br? { LinkedNewParent(m, m', b, x.node, s, x.rank, y.rank); }
    assert Linked(m', RotatedLeft(t).left, s);
  }

  lemma {:induction false} LeftRotatedAt(m: Memory, m': Memory, c: Hole, t: Shape, s: Node, top: Node)
    requires t.Br? && t.right.Br? && At(m, c, t, s, top)
    requires {t.item.node, t.right.item.node} <= m.Keys && LeftRotated(m, m', c, t)
    ensures At(m', c, RotatedLeft(t), s, if c.Top? then t.right.item.node else top)
  {
    LeftRotatedTree(m, m', c, t, s, top);
    LeftRanksHold(m, c, t, s, top);
    LeftRotatedSame(m, m', c, t, s);
    if !c.Top? {
      HoleNewChild(m, m', c, t.item.node, t.right.item.node, s, top);
    }
  }

  ghost predicate RightRotated(m: Memory, m': Memory, c: Hole, t: Shape)
    requires t.Br? && t.left.Br? && {t.item.node, t.left.item.node} <= m.Keys
  {
    var x, y, b := t.item.node, t.left.item.node, t.left.right;
    && m'.Keys == m.Keys
    && m'[x] == m[x].(left := m[y].right, parent := y)
    && m'[y] == m[y].(right := x, parent := m[x].parent)
    && (b.Br? ==> b.item.node in m && m'[b.item.node] == m[b.item.node].(parent := x))
    && (c.InL? ==> c.item.node in m && m'[c.item.node] == m[c.item.node].(left := y))
    && (c.InR? ==> c.item.node in m && m'[c.item.node] == m[c.item.node].(right := y))
    && forall n <- m.Keys :: n != x && n != y && (b.Br? ==> n != b.item.node) && (!c.Top? ==> n != c.item.node) ==>
      m'[n] == m[n]
  }

  /** The ranks of the nodes a right rotation writes. */
  ghost predicate RightRanks(m: Memory, c: Hole, t: Shape)
    requires t.Br? && t.left.Br?
  {
    var b, x, y := t.left.right, t.item, t.left.item;
    && x.node in m && y.node in m && m[x.node].rank == x.rank && m[y.node].rank == y.rank
    && Lo(c) < y.rank < x.rank < Hi(c)
    && (b.Br? ==> b.item.node in m && m[b.item.node].rank == b.item.rank && y.rank < b.item.rank < x.rank)
    && (!c.Top? ==> c.item.node in m && m[c.item.node].rank == if c.InL? then Hi(c) else Lo(c))
  }

  lemma {:induction false} RightRanksHold(m: Memory, c: Hole, t: Shape, s: Node, top: Node)
    requires t.Br? && t.left.Br? && At(m, c, t, s, top)
    ensures RightRanks(m, c, t)
    ensures Linked(m, t.left, s) && Linked(m, t.left.right, s) && Linked(m, t.left.left, s)
    ensures Ordered(t.left.right, t.left.item.rank, t.item.rank) && Ordered(t.left.left, Lo(c), t.left.item.rank)
  {
    assert Linked(m, t.left, s) && Ordered(t.left, Lo(c), t.item.rank);
    assert Linked(m, t.left.right, s) && Ordered(t.left.right, t.left.item.rank, t.item.rank);
  }

  /** What a right rotation leaves alone. */
  lemma {:induction false} RightRotatedSame(m: Memory, m': Memory, c: Hole, t: Shape, s: Node)
    requires t.Br? && t.left.Br? && RightRanks(m, c, t) && RightRotated(m, m', c, t)
    ensures var b, x, y := t.left.right, t.item, t.left.item;
      && SameIn(m, m', s, x.rank, Hi(c)) && SameIn(m, m', s, Lo(c), y.rank)
      && (b.Br? ==>
        && m'[b.item.node] == m[b.item.node].(parent := x.node)
        && SameIn(m, m', s, y.rank, b.item.rank) && SameIn(m, m', s, b.item.rank, x.rank))
      && (!c.Top? ==>
        && m'[c.item.node] == (if c.InL? then m[c.item.node].(left := y.node) else m[c.item.node].(right := y.node))
        && forall n <- m.Keys :: n != s && n != c.item.node && !(Lo(c) < m[n].rank < Hi(c)) ==> m'[n] == m[n])
  {
  }

  lemma {:induction false} RightRotatedTree(m: Memory, m': Memory, c: Hole, t: Shape, s: Node, top: Node)
    requires t.Br? && t.left.Br? && At(m, c, t, s, top)
    requires {t.item.node, t.left.item.node} <= m.Keys && RightRotated(m, m', c, t)
    ensures Linked(m', RotatedRight(t), s) && Ordered(RotatedRight(t), Lo(c), Hi(c))
  {
    RightRanksHold(m, c, t, s, top);
    RightRotatedSame(m, m', c, t, s);
    var a, b, d := t.right, t.left.right, t.left.left;
    var x, y := t.item, t.left.item;
    LinkedSame(m, m', a, s, x.rank, Hi(c));
    LinkedSame(m, m', d, s, Lo(c), y.rank);
    if b.Br? { LinkedNewParent(m, m', b, x.node, s, y.rank, x.rank); }
    assert Linked(m', RotatedRight(t).right, s);
  }

  lemma {:induction false} RightRotatedAt(m: Memory, m': Memory, c: Hole, t: Shape, s: Node, top: Node)
    requires t.Br? && t.left.Br? && At(m, c, t, s, top)
    requires {t.item.node, t.left.item.node} <= m.Keys && RightRotated(m, m', c, t)
    ensures At(m', c, RotatedRight(t), s, if c.Top? then t.left.item.node else top)
  {
    RightRotatedTree(m, m', c, t, s, top);
    RightRanksHold(m, c, t, s, top);
    RightRotatedSame(m, m', c, t, s);
    if !c.Top? {
      HoleNewChild(m, m', c, t.item.node, t.left.item.node, s, top);
    }
  }

  /** What the code of a left rotation finds. */
  lemma {:induction false} LeftReady(region: set<Node>, c: Hole, t: Shape, s: Node, top: Node)
    requires t.Br? && t.right.Br? && At(Snapshot(region), c, t, s, top)
    ensures var x, b, y := t.item.node, t.right.left, t.right.item.node;
      && x in region && y in region && x != y && x != s && y != s && x.right == y
      && (b.Leaf? ==> y.left == s)
      && (b.Br? ==>
        y.left == b.item.node && b.item.node != x && b.item.node != y && b.item.node != s && b.item.node in region)
      && (c.Top? <==> x == top)
      && (!c.Top? ==>
        && x.parent == c.item.node && c.item.node != x && c.item.node != y && c.item.node != s && c.item.node in region
        && (b.Br? ==> b.item.node != c.item.node)
        && (if c.InL? then c.item.node.left == x else c.item.node.left != x && c.item.node.right == x))
  {
    LeftRanksHold(Snapshot(region), c, t, s, top);
    PlaceOf(region, c, t, s, top);
  }

  /** What the code of a right rotation finds. */
  lemma {:induction false} RightReady(region: set<Node>, c: Hole, t: Shape, s: Node, top: Node)
    requires t.Br? && t.left.Br? && At(Snapshot(region), c, t, s, top)
    ensures var x, b, y := t.item.node, t.left.right, t.left.item.node;
      && x in region && y in region && x != y && x != s && y != s && x.left == y
      && (b.Leaf? ==> y.right == s)
      && (b.Br? ==>
        y.right == b.item.node && b.item.node != x && b.item.node != y && b.item.node != s && b.item.node in region)
      && (c.Top? <==> x == top)
      && (!c.Top? ==>
        && x.parent == c.item.node && c.item.node != x && c.item.node != y && c.item.node != s && c.item.node in region
        && (b.Br? ==> b.item.node != c.item.node)
        && (if c.InR? then c.item.node.right == x else c.item.node.right != x && c.item.node.left == x))
  {
    RightRanksHold(Snapshot(region), c, t, s, top);
    PlaceOf(region, c, t, s, top);
  }

  class RbTree {
    var root: Node
    var sentinel: Node
    ghost var Repr: set<Node>  // the nodes of the tree and the sentinel

    var insert: Order          // which comparison the insert function makes
    ghost var shape: Shape     // the tree the heap holds

    ghost predicate Valid()
      reads this, Repr
    {
      && sentinel in Repr && !sentinel.red
      && At(Snapshot(Repr), Top, shape, sentinel, root)
      && RedBlack(shape)
    }

    constructor (s: Node, order: Order)
      modifies s
      ensures Valid() && shape == Leaf && sentinel == s && insert == order && Repr == {s}
    {
      root, sentinel, insert, Repr, shape := s, s, order, {s}, Leaf;
      new;
      s.red := false;
    }

    /** `y` is the right child, `b` its left child and `p` the parent of `node`, if there are any. */
    method LeftRotate(node: Node, ghost y: Node, ghost b: Node?, ghost p: Node?)
      requires {node, y, sentinel} <= Repr && (b != null ==> b in Repr) && (p != null ==> p in Repr)
      requires node != y && node.right == y && y.left == (if b == null then sentinel else b) && b != sentinel
      requires b != node && b != y && p != node && p != y && (b != null ==> b != p)
      requires p == null <==> node == root
      requires p != null ==> node.parent == p && (p.left == node || p.right == node)
      modifies this`root, Repr
      ensures CellOf(node) == old(CellOf(node).(right := y.left, parent := y))
      ensures CellOf(y) == old(CellOf(y).(left := node, parent := node.parent))
      ensures b != null ==> CellOf(b) == old(CellOf(b).(parent := node))
      ensures root == if p == null then y else old(root)
      ensures p != null ==> CellOf(p) == old(if p.left == node then CellOf(p).(left := y) else CellOf(p).(right := y))
      ensures forall n <- Repr :: n != node && n != y && n != b && n != p ==> CellOf(n) == old(CellOf(n))
    {
      var temp := node.right;
      node.right := temp.left;

      if temp.left != sentinel {
        temp.left.parent := node;
      }

      temp.parent := node.parent;

      if node == root {
        root := temp;
      } else if node == node.parent.left {
        node.parent.left := temp;
      } else {
        node.parent.right := temp;
      }

      temp.left := node;
      node.parent := temp;
    }

    /** `y` is the left child, `b` its right child and `p` the parent of `node`, if there are any. */
    method RightRotate(node: Node, ghost y: Node, ghost b: Node?, ghost p: Node?)
      requires {node, y, sentinel} <= Repr && (b != null ==> b in Repr) && (p != null ==> p in Repr)
      requires node != y && node.left == y && y.right == (if b == null then sentinel else b) && b != sentinel
      requires b != node && b != y && p != node && p != y && (b != null ==> b != p)
      requires p == null <==> node == root
      requires p != null ==> node.parent == p && (p.left == node || p.right == node)
      modifies this`root, Repr
      ensures CellOf(node) == old(CellOf(node).(left := y.right, parent := y))
      ensures CellOf(y) == old(CellOf(y).(right := node, parent := node.parent))
      ensures b != null ==> CellOf(b) == old(CellOf(b).(parent := node))
      ensures root == if p == null then y else old(root)
      ensures p != null ==> CellOf(p) == old(if p.right == node then CellOf(p).(right := y) else CellOf(p).(left := y))
      ensures forall n <- Repr :: n != node && n != y && n != b && n != p ==> CellOf(n) == old(CellOf(n))
    {
      var temp := node.left;
      node.left := temp.right;

      if temp.right != sentinel {
        temp.right.parent := node;
      }

      temp.parent := node.parent;

      if node == root {
        root := temp;
      } else if node == node.parent.right {
        node.parent.right := temp;
      } else {
        node.parent.left := temp;
      }

      temp.right := node;
      node.parent := temp;
    }

    /** A left rotation, as a change of the tree the heap holds. */
    method LeftRotateAt(node: Node, ghost c: Hole, ghost t: Shape)
      requires sentinel in Repr && t.Br? && t.right.Br? && t.item.node == node
      requires At(Snapshot(Repr), c, t, sentinel, root)
      modifies this`root, Repr
      ensures At(Snapshot(Repr), c, RotatedLeft(t), sentinel, root)
      ensures CellOf(sentinel) == old(CellOf(sentinel))
    {
      hide At, RootOf, Linked, HoleLinked, Ordered, HoleOrdered, Lo, Hi, RotatedLeft;
      LeftReady(Repr, c, t, sentinel, root);
      ghost var m, top, b := Snapshot(Repr), root, t.right.left;
      LeftRotate(node, t.right.item.node, if b.Br? then b.item.node else null, if c.Top? then null else c.item.node);
      LeftRotatedAt(m, Snapshot(Repr), c, t, sentinel, top);
    }

    /** A right rotation, as a change of the tree the heap holds. */
    method RightRotateAt(node: Node, ghost c: Hole, ghost t: Shape)
      requires sentinel in Repr && t.Br? && t.left.Br? && t.item.node == node
      requires At(Snapshot(Repr), c, t, sentinel, root)
      modifies this`root, Repr
      ensures At(Snapshot(Repr), c, RotatedRight(t), sentinel, root)
      ensures CellOf(sentinel) == old(CellOf(sentinel))
    {
      hide At, RootOf, Linked, HoleLinked, Ordered, HoleOrdered, Lo, Hi, RotatedRight;
      RightReady(Repr, c, t, sentinel, root);
      ghost var m, top, b := Snapshot(Repr), root, t.left.right;
      RightRotate(node, t.left.item.node, if b.Br? then b.item.node else null, if c.Top? then null else c.item.node);
      RightRotatedAt(m, Snapshot(Repr), c, t, sentinel, top);
    }

    /** Colours the root of the subtree in the hole. */
    method Paint(n: Node, red: bool, ghost c: Hole, ghost t: Shape)
      requires sentinel in Repr && t.Br? && t.item.node == n && At(Snapshot(Repr), c, t, sentinel, root)
      modifies Repr
      ensures At(Snapshot(Repr), c, t.(red := red), sentinel, root)
      ensures CellOf(sentinel) == old(CellOf(sentinel))
    {
      ghost var m := Snapshot(Repr);
      assert n in Repr && n != sentinel;
      hide At, RootOf, Linked, HoleLinked, Ordered, HoleOrdered, Lo, Hi;
      n.red := red;
      PaintedAt(m, Snapshot(Repr), red, c, t, sentinel, root);
    }
  }
}
