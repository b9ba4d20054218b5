/** Deletion: the node or its successor leaves its place, then RbLevel repairs the black heights. */
module RbDelete {
  import opened RbShape
  import opened RbHeap
  import opened RbSorted
  import opened RbRotate
  import opened RbLevel

  // ----- places in a tree

  lemma {:induction false} Locate<T>(t: Tree<T>, e: T) returns (c: Ctx<T>, u: Tree<T>)
    requires e in InOrder(t)
    ensures Fill(c, u) == t && u.Br? && u.item == e
  {
    if t.item == e {
      c, u := Top, t;
    } else if e in InOrder(t.left) {
      c, u := Locate(t.left, e);
      AppendFill(c, InL(Top, t.item, t.red, t.right), u);
      c := Append(c, InL(Top, t.item, t.red, t.right));
    } else {
      c, u := Locate(t.right, e);
      AppendFill(c, InR(Top, t.item, t.red, t.left), u);
      c := Append(c, InR(Top, t.item, t.red, t.left));
    }
  }

  /** The way down from a node to the least node below it. */
  predicate Leftmost<T>(k: Ctx<T>) { k.Top? || (k.InL? && Leftmost(k.up)) }

  lemma {:induction false} LeftmostFirst<T>(k: Ctx<T>, u: Tree<T>)
    requires Leftmost(k)
    ensures InOrder(Fill(k, u)) == InOrder(u) + After(k)
  {
    FillInOrder(k, u);
    NothingBefore(k);
  }

  lemma {:induction false} NothingBefore<T>(k: Ctx<T>)
    requires Leftmost(k)
    ensures Before(k) == []
  {
    if !k.Top? { NothingBefore(k.up); }
  }

  /** ngx_rbtree_min */
  method Min(tree: RbTree, start: Node, ghost c: Hole, ghost t: Shape)
    returns (node: Node, ghost k: Hole, ghost u: Shape, ghost turns: nat)
    requires t.Br? && t.item.node == start && At(Snapshot(tree.Repr), c, t, tree.sentinel, tree.root)
    ensures Leftmost(k) && Fill(k, u) == t && u.Br? && u.left.Leaf? && u.item.node == node
    ensures At(Snapshot(tree.Repr), Append(k, c), u, tree.sentinel, tree.root)
    ensures InOrder(t) != [] && InOrder(t)[0].node == node && turns == Depth(k) <= Height(t)
  {
    hide At;
    node, k, u, turns := start, Top, t, 0;
    PlaceOf(tree.Repr, c, t, tree.sentinel, tree.root);
    while node.left != tree.sentinel
      invariant Leftmost(k) && Fill(k, u) == t && u.Br? && u.item.node == node && node in tree.Repr
      invariant turns == Depth(k)
      invariant node.left == RootOf(u.left, tree.sentinel) && (node.left == tree.sentinel <==> u.left.Leaf?)
      invariant At(Snapshot(tree.Repr), Append(k, c), u, tree.sentinel, tree.root)
      decreases u
    {
      node := node.left;
      k, u := InL(k, u.item, u.red, u.right), u.left;
      AtUp(Snapshot(tree.Repr), Append(k, c), u, tree.sentinel, tree.root);
      PlaceOf(tree.Repr, Append(k, c), u, tree.sentinel, tree.root);
      turns := turns + 1;
    }
    DepthHeight(k, u);
    LeftmostFirst(k, u);
  }

  // ----- a node with at most one child leaves its place

  /** `child` is what stays when the root of `t` goes. */
  ghost predicate OnlyChild<T>(t: Tree<T>, child: Tree<T>) {
    t.Br? && ((t.left.Leaf? && child == t.right) || (t.right.Leaf? && child == t.left))
  }

  lemma {:induction false} OnlyChildColours<T>(c: Ctx<T>, t: Tree<T>, child: Tree<T>)
    requires OnlyChild(t, child) && Sound(t) && CtxBalanced(c, Bh(t)) && CtxNoRedRed(c, IsRed(t))
    ensures if t.red then RedBlack(Fill(c, child)) else Short(c, child)
    ensures Sound(child) && RedBlack(Blacken(child))
  {
    CtxAcceptsBlack(c, IsRed(t));
    BlackenSound(child);
    FillRedBlack(c, child);
  }

  /** Memory after `temp`, the root of `child` or the sentinel, took the place of the root of `t` in `c`. */
  lemma {:induction false} Unlinked(m: Memory, m': Memory, c: Hole, t: Shape, child: Shape, q: Node?, s: Node,
      top: Node)
    requires OnlyChild(t, child) && !c.Top? && At(m, c, t, s, top) && s in m && m'.Keys == m.Keys
    requires RootOf(child, s) in m && c.item.node in m && c.item.node != RootOf(child, s)
    requires m'[c.item.node] ==
      if c.InL? then m[c.item.node].(left := RootOf(child, s)) else m[c.item.node].(right := RootOf(child, s))
    requires m'[RootOf(child, s)] == m[RootOf(child, s)].(parent := q)
    requires forall n <- m.Keys :: n != c.item.node && n != RootOf(child, s) ==> m'[n] == m[n]
    ensures HoleOrdered(c) && Ordered(child, Lo(c), Hi(c))
    ensures HoleLinked(m', c, RootOf(child, s), s, top) && Linked(m', child, s)
  {
    var lo, hi := if t.left.Leaf? then t.item.rank else Lo(c), if t.left.Leaf? then Hi(c) else t.item.rank;
    OrderedWiden(child, lo, hi, Lo(c), Hi(c));
    assert m[c.item.node].rank == if c.InL? then Hi(c) else Lo(c);
    assert Linked(m, child, s);
    if child.Br? {
      assert m[child.item.node].rank == child.item.rank;
      LinkedNewParent(m, m', child, q, s, Lo(c), Hi(c));
    }
    HoleNewChild(m, m', c, t.item.node, RootOf(child, s), s, top);
  }

  lemma {:induction false} ApartFromChild(m: Memory, c: Hole, t: Shape, child: Shape, s: Node, top: Node)
    requires OnlyChild(t, child) && !c.Top? && child.Br? && At(m, c, t, s, top)
    ensures child.item.node != c.item.node
  {
    var lo, hi := if t.left.Leaf? then t.item.rank else Lo(c), if t.left.Leaf? then Hi(c) else t.item.rank;
    OrderedWiden(child, lo, hi, Lo(c), Hi(c));
    assert Linked(m, child, s);
    assert m[child.item.node].rank == child.item.rank;
    assert m[c.item.node].rank == if c.InL? then Hi(c) else Lo(c);
  }

  lemma {:induction false} OrderedWiden(t: Shape, lo: real, hi: real, lo': real, hi': real)
    requires Ordered(t, lo, hi) && lo' <= lo && hi <= hi'
    ensures Ordered(t, lo', hi')
  {
    if t.Br? {
      OrderedWiden(t.left, lo, t.item.rank, lo', t.item.rank);
      OrderedWiden(t.right, t.item.rank, hi, t.item.rank, hi');
    }
  }

  /** ngx_rbtree.c:185-202: `temp` takes the place of `subst`. */
  method Unlink(tree: RbTree, node: Node, subst: Node, temp: Node, ghost p: Node)
    requires {subst, temp, p} <= tree.Repr && subst.parent == p && p != temp && p != subst
    requires p.left == subst || p.right == subst
    modifies tree.Repr
    ensures CellOf(p) == old(if p.left == subst then CellOf(p).(left := temp) else CellOf(p).(right := temp))
    ensures CellOf(temp) == old(CellOf(temp)).(parent := if p == node then subst else p)
    ensures forall n <- tree.Repr :: n != p && n != temp ==> CellOf(n) == old(CellOf(n))
  {
    if subst == subst.parent.left {
      subst.parent.left := temp;
    } else {
      subst.parent.right := temp;
    }
    if subst.parent == node {
      temp.parent := subst;
    } else {
      temp.parent := subst.parent;
    }
  }

  /** The same, as a change of the tree: the only child fills the hole that `subst` leaves. */
  method UnlinkAt(tree: RbTree, node: Node, subst: Node, temp: Node, ghost c: Hole, ghost t: Shape, ghost child: Shape)
    requires tree.sentinel in tree.Repr && !tree.sentinel.red
    requires OnlyChild(t, child) && !c.Top? && t.item.node == subst && temp == RootOf(child, tree.sentinel)
    requires At(Snapshot(tree.Repr), c, t, tree.sentinel, tree.root)
    modifies tree.Repr
    ensures HoleOrdered(c) && Ordered(child, Lo(c), Hi(c)) && Linked(Snapshot(tree.Repr), child, tree.sentinel)
    ensures HoleLinked(Snapshot(tree.Repr), c, temp, tree.sentinel, tree.root)
    ensures temp in tree.Repr && temp.parent == (if c.item.node == node then subst else c.item.node)
    ensures CellOf(subst) == old(CellOf(subst))
    ensures !tree.sentinel.red
  {
    hide At, Linked, HoleLinked, Ordered, HoleOrdered, Lo, Hi;
    ghost var m, s, r := Snapshot(tree.Repr), tree.sentinel, tree.Repr;
    PlaceOf(r, c, t, s, tree.root);
    if child.Br? {
      ghost var cc := if t.left.Leaf? then InR(c, t.item, t.red, Leaf) else InL(c, t.item, t.red, Leaf);
      AtUp(m, cc, child, s, tree.root);
      PlaceOf(r, cc, child, s, tree.root);
    }
    if child.Br? { ApartFromChild(m, c, t, child, s, tree.root); }
    Unlink(tree, node, subst, temp, c.item.node);
    Unlinked(m, Snapshot(r), c, t, child, temp.parent, s, tree.root);
  }

  // ----- the successor takes the place of a node with two children

  /** All of At(c, Br(l, e, red, r)) but the parents of the two children. */
  ghost predicate Hollow(m: Memory, c: Hole, l: Shape, e: Entry, red: bool, r: Shape, s: Node, top: Node) {
    && HoleOrdered(c) && Lo(c) < e.rank < Hi(c) && Ordered(l, Lo(c), e.rank) && Ordered(r, e.rank, Hi(c))
    && Linked(m, l, s) && Linked(m, r, s)
    && Holds(m, e, red, RootOf(l, s), RootOf(r, s), s)
    && HoleParentIs(m, c, e.node) && HoleLinked(m, c, e.node, s, top)
  }

  /** ngx_rbtree.c:205-228: `subst` takes the fields and the place of `node`, whose children and parent are
      `a`, `b` and `p`, if there are any. */
  method Transplant(tree: RbTree, node: Node, subst: Node, ghost a: Node?, ghost b: Node?, ghost p: Node?)
    requires {node, subst, tree.sentinel} <= tree.Repr && node != subst
    requires (a != null ==> a in tree.Repr) && (b != null ==> b in tree.Repr) && (p != null ==> p in tree.Repr)
    requires node.left == (if a == null then tree.sentinel else a) && a != tree.sentinel
    requires node.right == (if b == null then tree.sentinel else b) && b != tree.sentinel
    requires a != node && a != subst && b != node && b != subst && (a != null ==> a != b)
    requires p != node && p != subst && (p != null ==> p != a && p != b)
    requires p == null <==> node == tree.root
    requires p != null ==> node.parent == p && (p.left == node || p.right == node)
    modifies tree`root, tree.Repr
    ensures CellOf(subst) ==
      old(CellOf(subst).(left := node.left, right := node.right, parent := node.parent, red := node.red))
    ensures a != null ==> CellOf(a) == old(CellOf(a)).(parent := subst)
    ensures b != null ==> CellOf(b) == old(CellOf(b)).(parent := subst)
    ensures tree.root == if p == null then subst else old(tree.root)
    ensures p != null ==>
      CellOf(p) == old(if p.left == node then CellOf(p).(left := subst) else CellOf(p).(right := subst))
    ensures forall n <- tree.Repr :: n != subst && n != a && n != b && n != p ==> CellOf(n) == old(CellOf(n))
  {
    subst.left := node.left;
    subst.right := node.right;
    subst.parent := node.parent;
    subst.red := node.red;

    if node == tree.root {
      tree.root := subst;
    } else if node == node.parent.left {
      node.parent.left := subst;
    } else {
      node.parent.right := subst;
    }

    if subst.left != tree.sentinel {
      subst.left.parent := subst;
    }

    if subst.right != tree.sentinel {
      subst.right.parent := subst;
    }
  }

  /** Memory after Transplant. */
  ghost predicate Transplanted(m: Memory, m': Memory, c: Hole, l: Shape, r: Shape, x: Node, y: Node)
    requires {x, y} <= m.Keys
  {
    && m'.Keys == m.Keys
    && m'[y] == m[y].(left := m[x].left, right := m[x].right, parent := m[x].parent, red := m[x].red)
    && (l.Br? ==> l.item.node in m && m'[l.item.node] == m[l.item.node].(parent := y))
    && (r.Br? ==> r.item.node in m && m'[r.item.node] == m[r.item.node].(parent := y))
    && (!c.Top? ==>
      && c.item.node in m
      && m'[c.item.node] == if c.InL? then m[c.item.node].(left := y) else m[c.item.node].(right := y))
    && forall n <- m.Keys ::
      n != y && (l.Br? ==> n != l.item.node) && (r.Br? ==> n != r.item.node) && (!c.Top? ==> n != c.item.node) ==>
        m'[n] == m[n]
  }

  /** The successor's rank lies above the removed node's and below everything that stays on the right. */
  ghost predicate Successor(m: Memory, c: Hole, e: Entry, r: Shape, es: Entry) {
    && es.node in m && m[es.node].key == es.key && m[es.node].str == es.str && m[es.node].rank == es.rank
    && e.rank < es.rank < Hi(c) && Ordered(r, es.rank, Hi(c))
  }

  /** The ranks of the nodes Transplant writes. */
  lemma {:induction false} HollowRanks(m: Memory, c: Hole, l: Shape, e: Entry, red: bool, r: Shape, es: Entry, s: Node,
      top: Node)
    requires Hollow(m, c, l, e, red, r, s, top) && Successor(m, c, e, r, es)
    ensures l.Br? ==>
      l.item.node in m && l.item.node != s && m[l.item.node].rank == l.item.rank && Lo(c) < l.item.rank < e.rank
    ensures r.Br? ==>
      r.item.node in m && r.item.node != s && m[r.item.node].rank == r.item.rank && es.rank < r.item.rank < Hi(c)
    ensures !c.Top? ==> c.item.node in m && c.item.node != s && m[c.item.node].rank == if c.InL? then Hi(c) else Lo(c)
  {
  }

  lemma {:induction false} TransplantedKids(m: Memory, m': Memory, c: Hole, l: Shape, e: Entry, red: bool, r: Shape,
      es: Entry, s: Node, top: Node)
    requires Hollow(m, c, l, e, red, r, s, top) && Successor(m, c, e, r, es) && es.node != s
    requires Transplanted(m, m', c, l, r, e.node, es.node)
    ensures Linked(m', l, s) && Linked(m', r, s)
  {
    HollowRanks(m, c, l, e, red, r, es, s, top);
    if l.Br? { LinkedNewParent(m, m', l, es.node, s, Lo(c), e.rank); }
    if r.Br? { LinkedNewParent(m, m', r, es.node, s, es.rank, Hi(c)); }
  }

  lemma {:induction false} TransplantedAt(m: Memory, m': Memory, c: Hole, l: Shape, e: Entry, red: bool, r: Shape,
      es: Entry, s: Node, top: Node)
    requires Hollow(m, c, l, e, red, r, s, top) && Successor(m, c, e, r, es) && es.node != s
    requires Transplanted(m, m', c, l, r, e.node, es.node)
    ensures At(m', c, Br(l, es, red, r), s, if c.Top? then es.node else top)
  {
    HollowRanks(m, c, l, e, red, r, es, s, top);
    TransplantedKids(m, m', c, l, e, red, r, es, s, top);
    OrderedWiden(l, Lo(c), e.rank, Lo(c), es.rank);
    if !c.Top? { HoleNewChild(m, m', c, e.node, es.node, s, top); }
  }

  /** What the code of Transplant finds. */
  lemma {:induction false} TransplantReady(region: set<Node>, c: Hole, l: Shape, e: Entry, red: bool, r: Shape,
      es: Entry, s: Node, top: Node)
    requires Hollow(Snapshot(region), c, l, e, red, r, s, top) && Successor(Snapshot(region), c, e, r, es)
    ensures var x, y := e.node, es.node;
      && x in region && y in region && x != y && x != s
      && x.left == RootOf(l, s) && x.right == RootOf(r, s)
      && (l.Br? ==> l.item.node in region && l.item.node != s && l.item.node != x && l.item.node != y)
      && (r.Br? ==> r.item.node in region && r.item.node != s && r.item.node != x && r.item.node != y)
      && (l.Br? && r.Br? ==> l.item.node != r.item.node)
      && (c.Top? <==> x == top)
      && (!c.Top? ==>
        && c.item.node in region && c.item.node != s && c.item.node != x && c.item.node != y && x.parent == c.item.node
        && (l.Br? ==> c.item.node != l.item.node) && (r.Br? ==> c.item.node != r.item.node)
        && (if c.InL? then c.item.node.left == x else c.item.node.left != x && c.item.node.right == x))
  {
    var m := Snapshot(region);
    HollowRanks(m, c, l, e, red, r, es, s, top);
    RootAbove(m, c, e.node, s, top);
    if c.InR? && c.sib.Br? {
      assert Linked(m, c.sib, s);
      assert m[c.sib.item.node].rank == c.sib.item.rank;
    }
  }

  /** The same, as a change of the tree: the successor stands where the deleted node stood. */
  method TransplantAt(tree: RbTree, node: Node, subst: Node, ghost c: Hole, ghost l: Shape, ghost e: Entry,
      ghost red: bool, ghost r: Shape, ghost es: Entry)
    requires tree.sentinel in tree.Repr && e.node == node && es.node == subst && subst != tree.sentinel
    requires Hollow(Snapshot(tree.Repr), c, l, e, red, r, tree.sentinel, tree.root)
    requires Successor(Snapshot(tree.Repr), c, e, r, es)
    modifies tree`root, tree.Repr
    ensures At(Snapshot(tree.Repr), c, Br(l, es, red, r), tree.sentinel, tree.root)
    ensures CellOf(tree.sentinel) == old(CellOf(tree.sentinel))
  {
    hide At, Hollow, Successor, RootOf;
    ghost var m, s, top := Snapshot(tree.Repr), tree.sentinel, tree.root;
    TransplantReady(tree.Repr, c, l, e, red, r, es, s, top);
    RootOfEither(l, s);
    RootOfEither(r, s);
    Transplant(tree, node, subst, if l.Br? then l.item.node else null, if r.Br? then r.item.node else null,
      if c.Top? then null else c.item.node);
    TransplantedAt(m, Snapshot(tree.Repr), c, l, e, red, r, es, s, top);
  }

  lemma RootOfEither(t: Shape, s: Node)
    ensures RootOf(t, s) == if t.Br? then t.item.node else s
  {
  }

  /** Above the least node of a subtree, the rest of the subtree keeps its upper bound. */
  lemma {:induction false} OrderedAboveLeast(k: Hole, base: Hole, t: Shape, x: real)
    requires Leftmost(k) && HoleOrdered(Append(k, base))
    requires x < Hi(Append(k, base)) && Ordered(t, x, Hi(Append(k, base)))
    ensures x < Hi(base) && Ordered(Fill(k, t), x, Hi(base))
  {
    if !k.Top? {
      OrderedAboveLeast(k.up, base, Br(t, k.item, k.red, k.sib), x);
    }
  }

  lemma {:induction false} LoAboveLeast(k: Hole, base: Hole)
    requires Leftmost(k)
    ensures Lo(Append(k, base)) == Lo(base)
  {
    if !k.Top? { LoAboveLeast(k.up, base); }
  }

  lemma {:induction false} SuccessorRank(m: Memory, c: Hole, l: Shape, e: Entry, red: bool, k: Hole, u: Shape, s: Node,
      top: Node)
    requires Leftmost(k) && u.Br? && u.left.Leaf? && At(m, Append(k, InR(c, e, red, l)), u, s, top)
    ensures Successor(m, c, e, Fill(k, u.right), u.item)
  {
    var base := InR(c, e, red, l);
    LoAboveLeast(k, base);
    OrderedAboveLeast(k, base, u.right, u.item.rank);
  }

  /** After the successor left the right subtree, only the parents of the children may be wrong. */
  lemma {:induction false} HollowAfter(m: Memory, c: Hole, l: Shape, e: Entry, red: bool, k: Hole, t: Shape, s: Node,
      top: Node)
    requires var K := Append(k, InR(c, e, red, l));
      && HoleOrdered(K) && Ordered(t, Lo(K), Hi(K)) && Linked(m, t, s) && HoleLinked(m, K, RootOf(t, s), s, top)
      && (!k.Top? && t.Br? ==> HoleParentIs(m, K, t.item.node))
    ensures Hollow(m, c, l, e, red, Fill(k, t), s, top)
  {
    var base := InR(c, e, red, l);
    if !k.Top? {
      AtFill(m, Append(k, base), t, s, top);
      AppendFill(k, base, t);
      AtFill(m, c, Br(l, e, red, Fill(k, t)), s, top);
    }
  }

  /** ngx_rbtree.c:185-228 for a node with two children: `u` is the subtree of the successor. */
  method TakeSuccessor(tree: RbTree, node: Node, subst: Node, temp: Node,
    ghost c: Hole, ghost l: Shape, ghost e: Entry, ghost red: bool, ghost k: Hole, ghost u: Shape)
    requires tree.sentinel in tree.Repr && !tree.sentinel.red && e.node == node
    requires Leftmost(k) && u.Br? && u.left.Leaf? && u.item.node == subst && temp == RootOf(u.right, tree.sentinel)
    requires At(Snapshot(tree.Repr), Append(k, InR(c, e, red, l)), u, tree.sentinel, tree.root)
    modifies tree`root, tree.Repr
    ensures Cursor(tree, temp, Append(k, InR(c, u.item, red, l)), u.right)
  {
    hide At, HoleLinked, Linked, Hollow, Successor, HoleOrdered, Lo, Hi, Ordered;
    ghost var s, r, base, es := tree.sentinel, tree.Repr, InR(c, e, red, l), u.item;
    ghost var K, m := Append(k, base), Snapshot(r);
    SuccessorRank(m, c, l, e, red, k, u, s, tree.root);
    PlaceOf(r, K, u, s, tree.root);
    UnlinkAt(tree, node, subst, temp, K, u, u.right);
    SuccessorStays(m, Snapshot(r), c, e, Fill(k, u.right), es);
    BottomOf(k, base);
    if !k.Top? { BottomApart(m, k, base, u, s, tree.root); }
    HollowAfter(Snapshot(r), c, l, e, red, k, u.right, s, tree.root);
    TransplantAt(tree, node, subst, c, l, e, red, Fill(k, u.right), es);
    AtAppend(Snapshot(r), c, l, es, red, k, u.right, s, tree.root);
    BottomOf(k, InR(c, es, red, l));
    if u.right.Br? { PlaceOf(r, Append(k, InR(c, es, red, l)), u.right, s, tree.root); }
  }

  lemma SuccessorStays(m: Memory, m': Memory, c: Hole, e: Entry, r: Shape, es: Entry)
    requires Successor(m, c, e, r, es) && es.node in m' && m'[es.node] == m[es.node]
    ensures Successor(m', c, e, r, es)
  {
  }

  lemma BottomOf(k: Hole, base: Hole)
    requires base.InR?
    ensures !Append(k, base).Top? && Append(k, base).item == if k.Top? then base.item else k.item
  {
  }

  /** The parent of the successor is the removed node only when the successor is its right child. */
  lemma {:induction false} BottomApart(m: Memory, k: Hole, base: Hole, u: Shape, s: Node, top: Node)
    requires !k.Top? && Leftmost(k) && base.InR? && At(m, Append(k, base), u, s, top)
    ensures k.item.node != base.item.node
  {
    LoAboveLeast(k, base);
    BaseHolds(m, k, base, RootOf(u, s), s, top);
  }

  lemma {:induction false} BaseHolds(m: Memory, k: Hole, base: Hole, x: Node, s: Node, top: Node)
    requires !base.Top? && HoleLinked(m, Append(k, base), x, s, top)
    ensures base.item.node in m && m[base.item.node].rank == base.item.rank
  {
    if !k.Top? { BaseHolds(m, k.up, base, k.item.node, s, top); }
  }

  /** A tree built from the inside of a context, seen from the hole. */
  lemma {:induction false} AtAppend(m: Memory, c: Hole, l: Shape, es: Entry, red: bool, k: Hole, t: Shape, s: Node,
      top: Node)
    requires At(m, c, Br(l, es, red, Fill(k, t)), s, top)
    ensures At(m, Append(k, InR(c, es, red, l)), t, s, top)
  {
    AtFill(m, c, Br(l, es, red, Fill(k, t)), s, top);
    AppendFill(k, InR(c, es, red, l), t);
    AtFill(m, Append(k, InR(c, es, red, l)), t, s, top);
  }

  // ----- the whole deletion

  /** Two places never hold the same node. */
  lemma {:induction false} DistinctNodes(m: Memory, t: Shape, s: Node, lo: real, hi: real)
    requires Linked(m, t, s) && Ordered(t, lo, hi)
    ensures forall e <- InOrder(t) :: lo < e.rank < hi && e.node in m && m[e.node].rank == e.rank
    ensures forall i, j :: 0 <= i < j < |InOrder(t)| ==> InOrder(t)[i].rank < InOrder(t)[j].rank
  {
    if t.Br? {
      DistinctNodes(m, t.left, s, lo, t.item.rank);
      DistinctNodes(m, t.right, s, t.item.rank, hi);
    }
  }

  /** What the choice of `subst` and `temp` gives: `u` is the only child when `node` itself goes, and the
      subtree of the successor otherwise. */
  ghost predicate Chosen(t: Shape, direct: bool, k: Hole, u: Shape) {
    if direct then OnlyChild(t, u) else
    t.Br? && Leftmost(k) && Fill(k, u) == t.right && u.Br? && u.left.Leaf?
  }

  ghost function HoleAfter(c: Hole, t: Shape, direct: bool, k: Hole, u: Shape): Hole
    requires direct || (t.Br? && u.Br?)
  {
    if direct then c else Append(k, InR(c, u.item, t.red, t.left))
  }

  ghost function RestAfter(direct: bool, u: Shape): Shape
    requires direct || u.Br?
  {
    if direct then u else u.right
  }

  lemma {:induction false} Outcome(c: Hole, t: Shape, direct: bool, k: Hole, u: Shape)
    requires t.Br? && Chosen(t, direct, k, u) && RedBlack(Fill(c, t))
    ensures var c', t' := HoleAfter(c, t, direct, k, u), RestAfter(direct, u);
      if (if direct then t.red else u.red) then RedBlack(Fill(c', t')) else Short(c', t')
    ensures direct ==> RedBlack(Blacken(u))
  {
    FillRedBlack(c, t);
    if direct {
      OnlyChildColours(c, t, u);
    } else {
      var base, base' := InR(c, t.item, t.red, t.left), InR(c, u.item, t.red, t.left);
      AppendFill(k, base, u);
      FillRedBlack(Append(k, base), u);
      AppendSwapItem(k, base, base', Bh(u), IsRed(u));
      OnlyChildColours(Append(k, base'), u, u.right);
    }
  }

  lemma {:induction false} OutcomeOrder(c: Hole, t: Shape, direct: bool, k: Hole, u: Shape)
    requires t.Br? && Chosen(t, direct, k, u)
    ensures var i := |Before(c)| + |InOrder(t.left)|;
      Removed(InOrder(Fill(c, t)), InOrder(Fill(HoleAfter(c, t, direct, k, u), RestAfter(direct, u))), i)
      && InOrder(Fill(c, t))[i] == t.item
  {
    hide InOrder, Fill, Before, After, Append, Removed, Leftmost;
    FillInOrder(c, t);
    InOrderBr(t);
    if direct {
      DirectOrder(c, t, u);
    } else {
      InnerOrder(c, t, k, u);
    }
    RemovedInside(Before(c), InOrder(t.left), t.item, InOrder(t.right), After(c));
  }

  lemma InOrderBr(t: Shape)
    requires t.Br?
    ensures InOrder(t) == InOrder(t.left) + [t.item] + InOrder(t.right)
  {
  }

  lemma {:induction false} DirectOrder(c: Hole, t: Shape, child: Shape)
    requires OnlyChild(t, child)
    ensures InOrder(Fill(c, child)) == Before(c) + (InOrder(t.left) + InOrder(t.right)) + After(c)
  {
    FillInOrder(c, child);
    assert InOrder(child) == InOrder(t.left) + InOrder(t.right);
  }

  lemma {:induction false} InnerOrder(c: Hole, t: Shape, k: Hole, u: Shape)
    requires Chosen(t, false, k, u)
    ensures InOrder(Fill(HoleAfter(c, t, false, k, u), u.right)) ==
      Before(c) + (InOrder(t.left) + InOrder(t.right)) + After(c)
  {
    hide InOrder, Fill, Before, After, Append, Leftmost;
    var r := Fill(k, u.right);
    AppendFill(k, InR(c, u.item, t.red, t.left), u.right);
    OneUp(c, u.item, t.red, t.left, r);
    FillInOrder(c, Br(t.left, u.item, t.red, r));
    InOrderBr(Br(t.left, u.item, t.red, r));
    LeftmostFirst(k, u);
    LeftmostFirst(k, u.right);
    InOrderBr(u);
    NoEntries();
    assert InOrder(t.right) == [u.item] + InOrder(r);
    assert InOrder(t.left) + [u.item] + InOrder(r) == InOrder(t.left) + InOrder(t.right);
  }

  lemma OneUp(c: Hole, e: Entry, red: bool, l: Shape, r: Shape)
    ensures Fill(InR(c, e, red, l), r) == Fill(c, Br(l, e, red, r))
  {
  }

  lemma NoEntries()
    ensures InOrder<Entry>(Leaf) == []
  {
  }

  lemma {:induction false} RemovedInside(p: seq<Entry>, l: seq<Entry>, x: Entry, r: seq<Entry>, q: seq<Entry>)
    ensures Removed(p + (l + [x] + r) + q, p + (l + r) + q, |p| + |l|) && (p + (l + [x] + r) + q)[|p| + |l|] == x
  {
    var before, k := p + (l + [x] + r) + q, |p| + |l|;
    assert before[..k] == p + l && before[k + 1..] == r + q;
  }

  /** ngx_rbtree.c:152-168 */
  method Choose(tree: RbTree, node: Node, ghost c: Hole, ghost t: Shape)
    returns (subst: Node, temp: Node, ghost k: Hole, ghost u: Shape)
    requires tree.sentinel in tree.Repr && !tree.sentinel.red && t.Br? && t.item.node == node
    requires At(Snapshot(tree.Repr), c, t, tree.sentinel, tree.root)
    ensures Chosen(t, subst == node, k, u) && temp == RootOf(RestAfter(subst == node, u), tree.sentinel)
    ensures subst != node ==>
      u.item.node == subst
      && At(Snapshot(tree.Repr), Append(k, InR(c, t.item, t.red, t.left)), u, tree.sentinel, tree.root)
    ensures subst == tree.root <==> subst == node && c.Top?
    ensures subst in tree.Repr && subst.red == (if subst == node then t.red else u.red)
  {
    hide At;
    PlaceOf(tree.Repr, c, t, tree.sentinel, tree.root);
    k, u := Top, t.left;
    if node.left == tree.sentinel {
      temp := node.right;
      subst := node;
      u := t.right;
    } else if node.right == tree.sentinel {
      temp := node.left;
      subst := node;
    } else {
      ghost var base := InR(c, t.item, t.red, t.left);
      AtUp(Snapshot(tree.Repr), base, t.right, tree.sentinel, tree.root);
      ghost var turns;
      subst, k, u, turns := Min(tree, node.right, base, t.right);
      PlaceOf(tree.Repr, Append(k, base), u, tree.sentinel, tree.root);
      BottomOf(k, base);
      NotBelowItself(Snapshot(tree.Repr), k, base, u, tree.sentinel, tree.root);
      assert subst.left == tree.sentinel;  // so ngx_rbtree.c:164 is never reached
      temp := subst.right;
    }
  }

  lemma {:induction false} NotBelowItself(m: Memory, k: Hole, base: Hole, u: Shape, s: Node, top: Node)
    requires Leftmost(k) && base.InR? && u.Br? && At(m, Append(k, base), u, s, top)
    ensures u.item.node != base.item.node
  {
    LoAboveLeast(k, base);
    BaseHolds(m, k, base, u.item.node, s, top);
  }

  /** `node` leaves the memory of the tree. */
  lemma {:induction false} Forgotten(m: Memory, m': Memory, t: Shape, n: Node, s: Node)
    requires Linked(m, t, s) && m'.Keys == m.Keys - {n}
    requires forall x <- m'.Keys :: m'[x] == m[x]
    requires forall e <- InOrder(t) :: e.node != n
    ensures Linked(m', t, s)
  {
    if t.Br? {
      assert t.item in InOrder(t);
      assert forall e <- InOrder(t.left) :: e in InOrder(t);
      assert forall e <- InOrder(t.right) :: e in InOrder(t);
      Forgotten(m, m', t.left, n, s);
      Forgotten(m, m', t.right, n, s);
      if t.left.Br? { assert t.left.item in InOrder(t.left); }
      if t.right.Br? { assert t.right.item in InOrder(t.right); }
    }
  }

  /** The entry that went is the only one of its node. */
  lemma {:induction false} NodeGone(tree: RbTree, t': Shape, k: nat)
    requires tree.Valid() && Removed(InOrder(tree.shape), InOrder(t'), k)
    ensures forall e <- InOrder(t') :: e.node != InOrder(tree.shape)[k].node
  {
    DistinctNodes(Snapshot(tree.Repr), tree.shape, tree.sentinel, 0.0, 1.0);
  }

  lemma {:induction false} ForgottenAt(m: Memory, m': Memory, t: Shape, n: Node, s: Node, top: Node)
    requires At(m, Top, t, s, top) && m'.Keys == m.Keys - {n}
    requires forall x <- m'.Keys :: m'[x] == m[x]
    requires forall e <- InOrder(t) :: e.node != n
    ensures At(m', Top, t, s, top)
  {
    Forgotten(m, m', t, n, s);
    if t.Br? { assert t.item in InOrder(t); }
  }

  /** ngx_rbtree.c:230-234, and the node leaves the tree's memory. */
  method Forget(tree: RbTree, node: Node, temp: Node, ghost c: Hole, ghost t: Shape)
    requires Cursor(tree, temp, c, t) && node in tree.Repr && node != tree.sentinel
    requires forall e <- InOrder(Fill(c, t)) :: e.node != node
    modifies tree`Repr, node
    ensures tree.Repr == old(tree.Repr) - {node} && Cursor(tree, temp, c, t)
    ensures node.left == null && node.right == null && node.parent == null && node.key == 0
  {
    hide At;
    ghost var m := Snapshot(tree.Repr);
    if t.Br? { RootEntry(c, t); }
    AtFill(m, c, t, tree.sentinel, tree.root);
    node.left := null;
    node.right := null;
    node.parent := null;
    node.key := 0;
    tree.Repr := tree.Repr - {node};
    ForgottenAt(m, Snapshot(tree.Repr), Fill(c, t), node, tree.sentinel, tree.root);
    AtFill(Snapshot(tree.Repr), c, t, tree.sentinel, tree.root);
  }

  lemma {:induction false} RootEntry(c: Hole, t: Shape)
    requires t.Br?
    ensures t.item in InOrder(Fill(c, t))
  {
    FillInOrder(c, t);
    assert t.item in InOrder(t);
  }

  lemma {:induction false} RootReplaced(m: Memory, m': Memory, t: Shape, child: Shape, s: Node, top: Node)
    requires OnlyChild(t, child) && At(m, Top, t, s, top) && s in m && !m[s].red
    requires RootOf(child, s) in m && m'.Keys == m.Keys - {t.item.node}
    requires forall e <- InOrder(child) :: e.node != t.item.node
    requires forall x <- m'.Keys :: m'[x] == if x == RootOf(child, s) then m[x].(red := false) else m[x]
    ensures At(m', Top, Blacken(child), s, RootOf(child, s))
  {
    var m1 := m[RootOf(child, s) := m[RootOf(child, s)].(red := false)];
    OrderedWiden(child, if t.left.Leaf? then t.item.rank else 0.0, if t.left.Leaf? then 1.0 else t.item.rank, 0.0, 1.0);
    assert Linked(m, child, s);
    if child.Br? { PaintedTree(m, m1, false, child, s, 0.0, 1.0); }
    assert InOrder(Blacken(child)) == InOrder(child);
    ForgottenAt(m1, m', Blacken(child), t.item.node, s, RootOf(child, s));
  }

  /** ngx_rbtree.c:170-181. The new root keeps whatever parent it had. */
  method DeleteRoot(tree: RbTree, node: Node, temp: Node, ghost child: Shape)
    requires tree.Valid() && OnlyChild(tree.shape, child) && tree.shape.item.node == node == tree.root
    requires temp == RootOf(child, tree.sentinel) && RedBlack(Blacken(child))
    requires forall e <- InOrder(child) :: e.node != node
    modifies tree`root, tree`shape, tree`Repr, tree.Repr
    ensures tree.Valid() && tree.Repr == old(tree.Repr) - {node} && tree.shape == Blacken(child)
    ensures node.left == null && node.right == null && node.parent == null && node.key == 0
  {
    hide At, Linked, OnlyChild, RedBlack, InOrder;
    ghost var m, t, s := Snapshot(tree.Repr), tree.shape, tree.sentinel;
    DeleteRootReady(tree, node, temp, child);
    tree.root := temp;
    temp.red := false;
    node.left := null;
    node.right := null;
    node.parent := null;
    node.key := 0;
    tree.Repr := tree.Repr - {node};
    tree.shape := Blacken(child);
    RootReplaced(m, Snapshot(tree.Repr), t, child, s, node);
  }

  lemma {:induction false} DeleteRootReady(tree: RbTree, node: Node, temp: Node, child: Shape)
    requires tree.Valid() && OnlyChild(tree.shape, child) && tree.shape.item.node == node
    requires temp == RootOf(child, tree.sentinel) && forall e <- InOrder(child) :: e.node != node
    ensures temp in tree.Repr && temp != node && node in tree.Repr && node != tree.sentinel
  {
    PlaceOf(tree.Repr, Top, tree.shape, tree.sentinel, tree.root);
    assert Linked(Snapshot(tree.Repr), child, tree.sentinel);
    if child.Br? { assert child.item in InOrder(child); }
  }

  /** ngx_rbtree.c:185-228: `subst` leaves its place and, if it is not `node`, takes that of `node`. */
  method SpliceOut(tree: RbTree, node: Node, subst: Node, temp: Node, ghost c: Hole, ghost t: Shape, ghost k: Hole,
      ghost u: Shape)
    requires tree.sentinel in tree.Repr && !tree.sentinel.red && t.Br? && t.item.node == node
    requires (c.Top? ==> subst != node)
    requires At(Snapshot(tree.Repr), c, t, tree.sentinel, tree.root)
    requires Chosen(t, subst == node, k, u) && temp == RootOf(RestAfter(subst == node, u), tree.sentinel)
    requires subst != node ==>
      u.item.node == subst
      && At(Snapshot(tree.Repr), Append(k, InR(c, t.item, t.red, t.left)), u, tree.sentinel, tree.root)
    modifies tree`root, tree.Repr
    ensures Cursor(tree, temp, HoleAfter(c, t, subst == node, k, u), RestAfter(subst == node, u))
  {
    if subst == node {
      NotOwnParent(tree, c, t);
      UnlinkAt(tree, node, subst, temp, c, t, u);
    } else {
      hide At, Leftmost, Fill, Append;
      TakeSuccessor(tree, node, subst, temp, c, t.left, t.item, t.red, k, u);
    }
  }

  lemma {:induction false} NotOwnParent(tree: RbTree, c: Hole, t: Shape)
    requires !c.Top? && t.Br? && At(Snapshot(tree.Repr), c, t, tree.sentinel, tree.root)
    ensures c.item.node != t.item.node
  {
    PlaceOf(tree.Repr, c, t, tree.sentinel, tree.root);
  }

  /** What the tree will be once `node` is gone. */
  lemma {:induction false} Plan(tree: RbTree, c: Hole, t: Shape, direct: bool, k: Hole, u: Shape)
    requires tree.Valid() && Fill(c, t) == tree.shape && t.Br? && Chosen(t, direct, k, u)
    ensures var c', t', i := HoleAfter(c, t, direct, k, u), RestAfter(direct, u), |Before(c)| + |InOrder(t.left)|;
      && Removed(InOrder(tree.shape), InOrder(Fill(c', t')), i) && InOrder(tree.shape)[i] == t.item
      && (forall e <- InOrder(Fill(c', t')) :: e.node != t.item.node)
      && (if (if direct then t.red else u.red) then RedBlack(Fill(c', t')) else Short(c', t'))
      && (direct ==> RedBlack(Blacken(u)))
  {
    hide At, InOrder, Fill, Before, Append, RedBlack, Short, Leftmost, OnlyChild;
    OutcomeOrder(c, t, direct, k, u);
    Outcome(c, t, direct, k, u);
    NodeGone(tree, Fill(HoleAfter(c, t, direct, k, u), RestAfter(direct, u)), |Before(c)| + |InOrder(t.left)|);
  }

  /** The case of a node without a left or right subtree at the root (lines 170-181). */
  method DeleteTopmost(tree: RbTree, node: Node, temp: Node, ghost t: Shape, ghost u: Shape)
    requires tree.Valid() && tree.shape == Fill(Top, t) && OnlyChild(t, u) && t.item.node == node == tree.root
    requires temp == RootOf(u, tree.sentinel) && RedBlack(Blacken(u))
    requires forall e <- InOrder(Fill(Top, u)) :: e.node != node
    modifies tree`root, tree`shape, tree`Repr, tree.Repr
    ensures tree.Valid() && tree.Repr == old(tree.Repr) - {node} && InOrder(tree.shape) == InOrder(Fill(Top, u))
    ensures node.left == null && node.right == null && node.parent == null && node.key == 0
  {
    hide At, RedBlack, OnlyChild;
    DeleteRoot(tree, node, temp, u);
  }

  /** ngx_rbtree.c:230-304 */
  method ForgetAndRepair(tree: RbTree, node: Node, temp: Node, red: bool, ghost c: Hole, ghost t: Shape)
    requires Cursor(tree, temp, c, t) && node in tree.Repr && node != tree.sentinel
    requires forall e <- InOrder(Fill(c, t)) :: e.node != node
    requires if red then RedBlack(Fill(c, t)) else Short(c, t)
    modifies tree`root, tree`shape, tree`Repr, tree.Repr
    ensures tree.Valid() && tree.Repr == old(tree.Repr) - {node}
    ensures InOrder(tree.shape) == InOrder(Fill(c, t))
    ensures node.left == null && node.right == null && node.parent == null && node.key == 0
  {
    hide At, InOrder, Fill, RedBlack, Short;
    Forget(tree, node, temp, c, t);
    if red {
      tree.shape := Fill(c, t);
      AtFill(Snapshot(tree.Repr), c, t, tree.sentinel, tree.root);
      return;
    }
    ghost var turns := Repair(tree, temp, c, t);
  }

  /** ngx_rbtree_delete. The rest of the tree keeps its order; `k` is where the node stood. */
  method Delete(tree: RbTree, node: Node) returns (ghost k: nat)
    requires tree.Valid() && EntryOf(node) in InOrder(tree.shape)
    modifies tree`root, tree`shape, tree`Repr, tree.Repr
    ensures tree.Valid() && tree.Repr == old(tree.Repr) - {node}
    ensures Removed(old(InOrder(tree.shape)), InOrder(tree.shape), k) && old(InOrder(tree.shape)[k] == EntryOf(node))
    ensures node.left == null && node.right == null && node.parent == null && node.key == 0
  {
    hide At, InOrder, Fill, Before, Append, RedBlack, Short, Linked, Ordered, Leftmost, Removed, Sound, OnlyChild;
    ghost var c, t := Locate(tree.shape, EntryOf(node));
    AtFill(Snapshot(tree.Repr), c, t, tree.sentinel, tree.root);
    PlaceOf(tree.Repr, c, t, tree.sentinel, tree.root);
    var subst, temp;
    ghost var kk, u;
    subst, temp, kk, u := Choose(tree, node, c, t);
    k := |Before(c)| + |InOrder(t.left)|;
    Plan(tree, c, t, subst == node, kk, u);
    if subst == tree.root {
      DeleteTopmost(tree, node, temp, t, u);
      return;
    }
    var red := subst.red;
    SpliceOut(tree, node, subst, temp, c, t, kk, u);
    ghost var c', t' := HoleAfter(c, t, subst == node, kk, u), RestAfter(subst == node, u);
    ForgetAndRepair(tree, node, temp, red, c', t');
  }
}
