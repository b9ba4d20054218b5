/** Insertion: descent to a leaf, the new red node, and the climb that repairs the colours. */
module RbInsert {
  import opened RbShape
  import opened RbHeap
  import opened RbOrder
  import opened RbSorted
  import opened RbRotate

  /** What holds of the red node at the hole of `c` while a red parent may be left above it. */
  predicate Repairing<T>(c: Ctx<T>, t: Tree<T>) {
    IsRed(t) && Sound(t) && CtxBalanced(c, Bh(t)) && CtxNoRedRed(c, false)
  }

  /** The cursor of the repair: `node` is the red node in the hole of `c`. */
  ghost predicate Cursor(tree: RbTree, node: Node, c: Hole, t: Shape)
    reads tree, tree.Repr
  {
    && tree.sentinel in tree.Repr && !tree.sentinel.red
    && t.Br? && t.item.node == node && At(Snapshot(tree.Repr), c, t, tree.sentinel, tree.root)
  }

  /** A red parent has a black parent, and the places above are as its red child needs them. */
  lemma {:induction false} RedParent<T>(c: Ctx<T>, t: Tree<T>)
    requires Repairing(c, t) && !c.Top? && c.red
    ensures !c.up.Top? && !c.up.red
    ensures Sound(c.sib) && Bh(c.sib) == Bh(t) && !IsRed(c.sib)
    ensures Sound(c.up.sib) && Bh(c.up.sib) == Bh(t)
    ensures CtxBalanced(c.up.up, Bh(t) + 1) && CtxNoRedRed(c.up.up, false)
  {
    assert CtxNoRedRed(c.up, true) && CtxBalanced(c.up, Bh(t));
  }

  /** Red uncle on the right: the two reds become black, the grandparent red. */
  ghost function RecolouredL<T>(c: Ctx<T>, t: Tree<T>): Tree<T>
    requires !c.Top? && c.up.InL? && c.up.sib.Br?
  {
    var p := if c.InL? then Br(t, c.item, false, c.sib) else Br(c.sib, c.item, false, t);
    Br(p, c.up.item, true, c.up.sib.(red := false))
  }

  lemma {:induction false} RecolouredLKeeps<T>(c: Ctx<T>, t: Tree<T>)
    requires Repairing(c, t) && !c.Top? && c.red && c.up.InL? && IsRed(c.up.sib)
    ensures Repairing(c.up.up, RecolouredL(c, t))
    ensures InOrder(Fill(c.up.up, RecolouredL(c, t))) == InOrder(Fill(c, t))
  {
    RedParent(c, t);
    var u := c.up.sib;
    assert Sound(u.(red := false)) && Bh(u.(red := false)) == Bh(t) + 1;
    var p := if c.InL? then Br(t, c.item, false, c.sib) else Br(c.sib, c.item, false, t);
    assert Sound(p) && Bh(p) == Bh(t) + 1;
    SameInOrder(c.up.up, RecolouredL(c, t), Br(p.(red := true), c.up.item, false, u));
  }

  /** ngx_rbtree.c:39-42 */
  method RecolourL(tree: RbTree, node: Node, ghost c: Hole, ghost t: Shape) returns (next: Node)
    requires Cursor(tree, node, c, t)
    requires Repairing(c, t) && !c.Top? && c.red && c.up.InL? && IsRed(c.up.sib)
    modifies tree`root, tree.Repr
    ensures CellOf(tree.sentinel) == old(CellOf(tree.sentinel))
    ensures Cursor(tree, next, c.up.up, RecolouredL(c, t))
  {
    hide At, Repairing;
    ghost var s, r := tree.sentinel, tree.Repr;
    PlaceOf(r, c, t, s, tree.root);
    AtUp(Snapshot(r), c, t, s, tree.root);
    PlaceOf(r, c.up, Up(c, t), s, tree.root);
    var parent, grand, temp := node.parent, node.parent.parent, node.parent.parent.right;
    tree.Paint(parent, false, c.up, Up(c, t));
    ghost var p := Up(c, t).(red := false);
    AtUp(Snapshot(r), c.up, p, s, tree.root);
    ghost var u, cu := c.up.sib, InR(c.up.up, c.up.item, c.up.red, p);
    AtUp(Snapshot(r), cu, u, s, tree.root);
    tree.Paint(temp, false, cu, u);
    AtUp(Snapshot(r), cu, u.(red := false), s, tree.root);
    tree.Paint(grand, true, c.up.up, Up(cu, u.(red := false)));
    next := grand;
  }

  /** Black uncle, `node` a right child: after the inner rotation its old parent is the lower red node. */
  lemma {:induction false} StraightenedLKeeps<T>(c: Ctx<T>, t: Tree<T>)
    requires Repairing(c, t) && c.InR? && c.red
    ensures Repairing(InL(c.up, t.item, true, t.right), Br(c.sib, c.item, true, t.left))
    ensures InOrder(Fill(InL(c.up, t.item, true, t.right), Br(c.sib, c.item, true, t.left))) == InOrder(Fill(c, t))
  {
    RedParent(c, t);
    SameInOrder(c.up, Br(c.sib, c.item, true, t), Br(Br(c.sib, c.item, true, t.left), t.item, true, t.right));
  }

  /** ngx_rbtree.c:46-47 */
  method StraightenL(tree: RbTree, node: Node, ghost c: Hole, ghost t: Shape) returns (next: Node)
    requires Cursor(tree, node, c, t) && Repairing(c, t) && c.InR? && c.red
    modifies tree`root, tree.Repr
    ensures CellOf(tree.sentinel) == old(CellOf(tree.sentinel))
    ensures Cursor(tree, next, InL(c.up, t.item, true, t.right), Br(c.sib, c.item, true, t.left))
  {
    hide At, Sound, CtxBalanced, CtxNoRedRed;
    ghost var s, r := tree.sentinel, tree.Repr;
    PlaceOf(r, c, t, s, tree.root);
    AtUp(Snapshot(r), c, t, s, tree.root);
    next := node.parent;
    tree.LeftRotateAt(next, c.up, Up(c, t));
    AtUp(Snapshot(r), InL(c.up, t.item, true, t.right), Br(c.sib, c.item, true, t.left), s, tree.root);
  }

  /** Black uncle, `node` a left child: the outer rotation ends the repair. */
  lemma {:induction false} RotatedLKeeps<T>(c: Ctx<T>, t: Tree<T>)
    requires Repairing(c, t) && c.InL? && c.red && c.up.InL? && !IsRed(c.up.sib)
    ensures var c' := InL(c.up.up, c.item, false, Br(c.sib, c.up.item, true, c.up.sib));
      Repairing(c', t) && InOrder(Fill(c', t)) == InOrder(Fill(c, t))
  {
    RedParent(c, t);
    SameInOrder(c.up.up, Br(Br(t, c.item, true, c.sib), c.up.item, false, c.up.sib),
      Br(t, c.item, false, Br(c.sib, c.up.item, true, c.up.sib)));
  }

  /** ngx_rbtree.c:50-52 */
  method RotateL(tree: RbTree, node: Node, ghost c: Hole, ghost t: Shape)
    requires Cursor(tree, node, c, t) && c.InL? && c.up.InL?
    modifies tree`root, tree.Repr
    ensures CellOf(tree.sentinel) == old(CellOf(tree.sentinel))
    ensures Cursor(tree, node, InL(c.up.up, c.item, false, Br(c.sib, c.up.item, true, c.up.sib)), t)
  {
    hide At;
    ghost var s, r, g := tree.sentinel, tree.Repr, c.up.up;
    PlaceOf(r, c, t, s, tree.root);
    AtUp(Snapshot(r), c, t, s, tree.root);
    PlaceOf(r, c.up, Up(c, t), s, tree.root);
    var grand := node.parent.parent;
    tree.Paint(node.parent, false, c.up, Up(c, t));
    ghost var p := Up(c, t).(red := false);
    AtUp(Snapshot(r), c.up, p, s, tree.root);
    tree.Paint(grand, true, g, Up(c.up, p));
    ghost var q := Up(c.up, p).(red := true);
    tree.RightRotateAt(grand, g, q);
    AtUp(Snapshot(r), InL(g, c.item, false, Br(c.sib, c.up.item, true, c.up.sib)), t, s, tree.root);
  }

  /** Red uncle on the left: the two reds become black, the grandparent red. */
  ghost function RecolouredR<T>(c: Ctx<T>, t: Tree<T>): Tree<T>
    requires !c.Top? && c.up.InR? && c.up.sib.Br?
  {
    var p := if c.InL? then Br(t, c.item, false, c.sib) else Br(c.sib, c.item, false, t);
    Br(c.up.sib.(red := false), c.up.item, true, p)
  }

  lemma {:induction false} RecolouredRKeeps<T>(c: Ctx<T>, t: Tree<T>)
    requires Repairing(c, t) && !c.Top? && c.red && c.up.InR? && IsRed(c.up.sib)
    ensures Repairing(c.up.up, RecolouredR(c, t))
    ensures InOrder(Fill(c.up.up, RecolouredR(c, t))) == InOrder(Fill(c, t))
  {
    RedParent(c, t);
    var u := c.up.sib;
    assert Sound(u.(red := false)) && Bh(u.(red := false)) == Bh(t) + 1;
    var p := if c.InL? then Br(t, c.item, false, c.sib) else Br(c.sib, c.item, false, t);
    assert Sound(p) && Bh(p) == Bh(t) + 1;
    SameInOrder(c.up.up, RecolouredR(c, t), Br(u, c.up.item, false, p.(red := true)));
  }

  /** ngx_rbtree.c:59-62 */
  method RecolourR(tree: RbTree, node: Node, ghost c: Hole, ghost t: Shape) returns (next: Node)
    requires Cursor(tree, node, c, t)
    requires Repairing(c, t) && !c.Top? && c.red && c.up.InR? && IsRed(c.up.sib)
    modifies tree`root, tree.Repr
    ensures CellOf(tree.sentinel) == old(CellOf(tree.sentinel))
    ensures Cursor(tree, next, c.up.up, RecolouredR(c, t))
  {
    hide At, Repairing;
    ghost var s, r := tree.sentinel, tree.Repr;
    PlaceOf(r, c, t, s, tree.root);
    AtUp(Snapshot(r), c, t, s, tree.root);
    PlaceOf(r, c.up, Up(c, t), s, tree.root);
    var parent, grand, temp := node.parent, node.parent.parent, node.parent.parent.left;
    tree.Paint(parent, false, c.up, Up(c, t));
    ghost var p := Up(c, t).(red := false);
    AtUp(Snapshot(r), c.up, p, s, tree.root);
    ghost var u, cu := c.up.sib, InL(c.up.up, c.up.item, c.up.red, p);
    AtUp(Snapshot(r), cu, u, s, tree.root);
    tree.Paint(temp, false, cu, u);
    AtUp(Snapshot(r), cu, u.(red := false), s, tree.root);
    tree.Paint(grand, true, c.up.up, Up(cu, u.(red := false)));
    next := grand;
  }

  /** Black uncle, `node` a left child: after the inner rotation its old parent is the lower red node. */
  lemma {:induction false} StraightenedRKeeps<T>(c: Ctx<T>, t: Tree<T>)
    requires Repairing(c, t) && c.InL? && c.red
    ensures Repairing(InR(c.up, t.item, true, t.left), Br(t.right, c.item, true, c.sib))
    ensures InOrder(Fill(InR(c.up, t.item, true, t.left), Br(t.right, c.item, true, c.sib))) == InOrder(Fill(c, t))
  {
    RedParent(c, t);
    SameInOrder(c.up, Br(t, c.item, true, c.sib), Br(t.left, t.item, true, Br(t.right, c.item, true, c.sib)));
  }

  /** ngx_rbtree.c:66-67 */
  method StraightenR(tree: RbTree, node: Node, ghost c: Hole, ghost t: Shape) returns (next: Node)
    requires Cursor(tree, node, c, t) && Repairing(c, t) && c.InL? && c.red
    modifies tree`root, tree.Repr
    ensures CellOf(tree.sentinel) == old(CellOf(tree.sentinel))
    ensures Cursor(tree, next, InR(c.up, t.item, true, t.left), Br(t.right, c.item, true, c.sib))
  {
    hide At, Sound, CtxBalanced, CtxNoRedRed;
    ghost var s, r := tree.sentinel, tree.Repr;
    PlaceOf(r, c, t, s, tree.root);
    AtUp(Snapshot(r), c, t, s, tree.root);
    next := node.parent;
    tree.RightRotateAt(next, c.up, Up(c, t));
    AtUp(Snapshot(r), InR(c.up, t.item, true, t.left), Br(t.right, c.item, true, c.sib), s, tree.root);
  }

  /** Black uncle, `node` a right child: the outer rotation ends the repair. */
  lemma {:induction false} RotatedRKeeps<T>(c: Ctx<T>, t: Tree<T>)
    requires Repairing(c, t) && c.InR? && c.red && c.up.InR? && !IsRed(c.up.sib)
    ensures var c' := InR(c.up.up, c.item, false, Br(c.up.sib, c.up.item, true, c.sib));
      Repairing(c', t) && InOrder(Fill(c', t)) == InOrder(Fill(c, t))
  {
    RedParent(c, t);
    SameInOrder(c.up.up, Br(c.up.sib, c.up.item, false, Br(c.sib, c.item, true, t)),
      Br(Br(c.up.sib, c.up.item, true, c.sib), c.item, false, t));
  }

  /** ngx_rbtree.c:70-72 */
  method RotateR(tree: RbTree, node: Node, ghost c: Hole, ghost t: Shape)
    requires Cursor(tree, node, c, t) && c.InR? && c.up.InR?
    modifies tree`root, tree.Repr
    ensures CellOf(tree.sentinel) == old(CellOf(tree.sentinel))
    ensures Cursor(tree, node, InR(c.up.up, c.item, false, Br(c.up.sib, c.up.item, true, c.sib)), t)
  {
    hide At;
    ghost var s, r, g := tree.sentinel, tree.Repr, c.up.up;
    PlaceOf(r, c, t, s, tree.root);
    AtUp(Snapshot(r), c, t, s, tree.root);
    PlaceOf(r, c.up, Up(c, t), s, tree.root);
    var grand := node.parent.parent;
    tree.Paint(node.parent, false, c.up, Up(c, t));
    ghost var p := Up(c, t).(red := false);
    AtUp(Snapshot(r), c.up, p, s, tree.root);
    tree.Paint(grand, true, g, Up(c.up, p));
    ghost var q := Up(c.up, p).(red := true);
    tree.LeftRotateAt(grand, g, q);
    AtUp(Snapshot(r), InR(g, c.item, false, Br(c.up.sib, c.up.item, true, c.sib)), t, s, tree.root);
  }

  /** What the loop of ngx_rbtree_insert finds around `node`. */
  ghost predicate Around(tree: RbTree, node: Node, c: Hole, t: Shape)
    reads tree, tree.Repr
  {
    && node in tree.Repr
    && (c.Top? <==> node == tree.root)
    && (!c.Top? ==>
      && node.parent == c.item.node && c.item.node in tree.Repr && node.parent.red == c.red
      && (node == node.parent.right <==> c.InR?)
      && (node == node.parent.left <==> c.InL?))
    && (!c.Top? && !c.up.Top? ==>
      var p, g, u := c.item.node, c.up.item.node, RootOf(c.up.sib, tree.sentinel);
      && p.parent == g && g in tree.Repr && u in tree.Repr && u.red == IsRed(c.up.sib)
      && (p == g.left <==> c.up.InL?)
      && (if c.up.InL? then g.right == u else g.left == u))
  }

  lemma {:induction false} AroundOf(tree: RbTree, node: Node, c: Hole, t: Shape)
    requires Cursor(tree, node, c, t)
    ensures Around(tree, node, c, t)
  {
    hide At;
    var m, s := Snapshot(tree.Repr), tree.sentinel;
    PlaceOf(tree.Repr, c, t, s, tree.root);
    if !c.Top? {
      AtUp(m, c, t, s, tree.root);
      PlaceOf(tree.Repr, c.up, Up(c, t), s, tree.root);
    }
  }

  /** Where the loop stops, only the colour of the root may be wrong. */
  lemma {:induction false} RepairedUpToRoot(c: Hole, t: Shape)
    requires Repairing(c, t) && (c.Top? || !c.red)
    ensures Sound(Fill(c, t)) && Fill(c, t).Br? && RedBlack(Fill(c, t).(red := false))
  {
    if !c.Top? {
      FillRedBlack(c, t);
      FillInOrder(c, t);
    }
  }

  /** ngx_rbtree.c:77 */
  method BlackenRoot(tree: RbTree, ghost node: Node, ghost c: Hole, ghost t: Shape)
    requires Cursor(tree, node, c, t) && Repairing(c, t) && (c.Top? || !c.red)
    modifies tree`shape, tree.Repr
    ensures tree.Valid() && InOrder(tree.shape) == InOrder(Fill(c, t))
  {
    hide At, Sound, CtxBalanced, CtxNoRedRed;
    RepairedUpToRoot(c, t);
    AtFill(Snapshot(tree.Repr), c, t, tree.sentinel, tree.root);
    tree.shape := Fill(c, t);
    PlaceOf(tree.Repr, Top, tree.shape, tree.sentinel, tree.root);
    tree.Paint(tree.root, false, Top, tree.shape);
    tree.shape := tree.shape.(red := false);
  }

  /** How many turns the repair takes from the hole `c` of a red node: one for each red uncle on the way up, and one
      more where a rotation ends it. */
  ghost function Turns<T>(c: Ctx<T>): nat {
    if c.Top? || !c.red then 0
    else if !c.up.Top? && IsRed(c.up.sib) then 1 + Turns(c.up.up)
    else 1
  }

  lemma {:induction false} TurnsDepth<T>(c: Ctx<T>)
    ensures Turns(c) <= Depth(c)
  {
    if !c.Top? && !c.up.Top? { TurnsDepth(c.up.up); }
  }

  /** The loop of ngx_rbtree_insert and the statement after it. */
  method Repair(tree: RbTree, start: Node, ghost c0: Hole, ghost t0: Shape) returns (ghost turns: nat)
    requires Cursor(tree, start, c0, t0) && Repairing(c0, t0)
    modifies tree`root, tree`shape, tree.Repr
    ensures turns == Turns(c0) <= Depth(c0) <= Height(Fill(c0, t0))
    ensures tree.Valid() && InOrder(tree.shape) == InOrder(Fill(c0, t0))
  {
    hide At, Sound, CtxBalanced, CtxNoRedRed, Fill, InOrder, Bh;
    var node := start;
    ghost var c, t := c0, t0;
    AroundOf(tree, node, c, t);
    DepthHeight(c, t);
    TurnsDepth(c);
    turns := 0;
    while node != tree.root && node.parent.red
      invariant Cursor(tree, node, c, t) && Repairing(c, t) && Around(tree, node, c, t)
      invariant turns + Turns(c) == Turns(c0)
      invariant InOrder(Fill(c, t)) == InOrder(Fill(c0, t0))
      decreases Depth(c)
    {
      RedParent(c, t);
      assert Depth(c.up) == 1 + Depth(c.up.up);
      if node.parent == node.parent.parent.left {
        var temp := node.parent.parent.right;
        if temp.red {
          RecolouredLKeeps(c, t);
          node := RecolourL(tree, node, c, t);
          c, t := c.up.up, RecolouredL(c, t);
        } else {
          if node == node.parent.right {
            StraightenedLKeeps(c, t);
            node := StraightenL(tree, node, c, t);
            c, t := InL(c.up, t.item, true, t.right), Br(c.sib, c.item, true, t.left);
          }
          RotatedLKeeps(c, t);
          RotateL(tree, node, c, t);
          c := InL(c.up.up, c.item, false, Br(c.sib, c.up.item, true, c.up.sib));
        }
      } else {
        var temp := node.parent.parent.left;
        if temp.red {
          RecolouredRKeeps(c, t);
          node := RecolourR(tree, node, c, t);
          c, t := c.up.up, RecolouredR(c, t);
        } else {
          if node == node.parent.left {
            StraightenedRKeeps(c, t);
            node := StraightenR(tree, node, c, t);
            c, t := InR(c.up, t.item, true, t.left), Br(t.right, c.item, true, c.sib);
          }
          RotatedRKeeps(c, t);
          RotateR(tree, node, c, t);
          c := InR(c.up.up, c.item, false, Br(c.up.sib, c.up.item, true, c.sib));
        }
      }
      AroundOf(tree, node, c, t);
      turns := turns + 1;
    }
    BlackenRoot(tree, node, c, t);
  }

  /** A red leaf below the last node of a descent. */
  lemma {:induction false} NewLeafAt(m: Memory, m': Memory, c: Hole, e: Entry, s: Node, top: Node)
    requires !c.Top? && HoleOrdered(c) && HoleLinked(m, c, s, s, top) && s in m
    requires e.node !in m && m'.Keys == m.Keys + {e.node} && Lo(c) < e.rank < Hi(c)
    requires m'[e.node] == Cell(e.key, e.str, e.rank, s, s, c.item.node, true)
    requires m'[c.item.node] == if c.InL? then m[c.item.node].(left := e.node) else m[c.item.node].(right := e.node)
    requires forall n <- m.Keys :: n != c.item.node ==> m'[n] == m[n]
    ensures At(m', c, Br(Leaf, e, true, Leaf), s, top)
  {
    HoleNewChild(m, m', c, s, e.node, s, top);
  }

  /** The writes that end an insert function: `*p = node` and the fields of the new node. */
  method HangLeaf(tree: RbTree, temp: Node, left: bool, node: Node)
    requires temp in tree.Repr && node !in tree.Repr && tree.sentinel in tree.Repr
    modifies temp, node
    ensures CellOf(temp) == old(if left then CellOf(temp).(left := node) else CellOf(temp).(right := node))
    ensures CellOf(node) == Cell(old(node.key), old(node.str), old(node.rank), tree.sentinel, tree.sentinel, temp, true)
  {
    if left {
      temp.left := node;
    } else {
      temp.right := node;
    }
    node.parent := temp;
    node.left := tree.sentinel;
    node.right := tree.sentinel;
    node.red := true;
  }

  /** The same, as a change of the tree. */
  method HangLeafAt(tree: RbTree, temp: Node, left: bool, node: Node, ghost c: Hole)
    requires tree.sentinel in tree.Repr && !tree.sentinel.red && temp in tree.Repr && temp != tree.sentinel
    requires node !in tree.Repr && At(Snapshot(tree.Repr), c, Leaf, tree.sentinel, tree.root)
    requires !c.Top? && c.item.node == temp && (left <==> c.InL?)
    modifies temp, tree`Repr, node
    ensures tree.Repr == old(tree.Repr) + {node}
    ensures CellOf(tree.sentinel) == old(CellOf(tree.sentinel))
    ensures node.key == old(node.key) && node.str == old(node.str)
    ensures Cursor(tree, node, c, Br(Leaf, Entry(node, node.key, node.str, node.rank), true, Leaf))
  {
    ghost var m := Snapshot(tree.Repr);
    LeafHole(m, c, tree.sentinel, tree.root);
    node.rank := (Lo(c) + Hi(c)) / 2.0;
    hide At, HoleOrdered, HoleLinked;
    HangLeaf(tree, temp, left, node);
    tree.Repr := tree.Repr + {node};
    NewLeafAt(m, Snapshot(tree.Repr), c, Entry(node, node.key, node.str, node.rank), tree.sentinel, tree.root);
  }

  /** The loop of the insert functions, which differ in the comparison alone: the hole `c` below `temp`
      is where the descent of `node` ends. */
  method Descend(tree: RbTree, start: Node, node: Node)
    returns (temp: Node, left: bool, ghost c: Hole, ghost turns: nat)
    requires tree.Valid() && tree.shape.Br? && start == tree.root
    ensures !c.Top? && c.item.node == temp && (left <==> c.InL?)
    ensures temp in tree.Repr && temp != tree.sentinel
    ensures Fill(c, Leaf) == tree.shape && At(Snapshot(tree.Repr), c, Leaf, tree.sentinel, tree.root)
    ensures |Before(c)| == Slot(tree.insert, tree.shape, Item(node.key, node.str))
    ensures turns + 1 == Depth(c) && Pow2(turns) <= (|InOrder(tree.shape)| + 1) * (|InOrder(tree.shape)| + 1)
  {
    hide At;
    var sentinel, x := tree.sentinel, Item(node.key, node.str);
    temp := start;
    ghost var t: Shape;
    c, t, turns := Top, tree.shape, 0;
    PlaceOf(tree.Repr, c, t, sentinel, tree.root);
    left := Less(tree.insert, x, Item(temp.key, temp.str));
    var p := if left then temp.left else temp.right;
    while p != sentinel
      invariant t.Br? && t.item.node == temp && At(Snapshot(tree.Repr), c, t, sentinel, tree.root)
      invariant temp in tree.Repr && temp != sentinel
      invariant Fill(c, t) == tree.shape && turns == Depth(c)
      invariant |Before(c)| + Slot(tree.insert, t, x) == Slot(tree.insert, tree.shape, x)
      invariant left == Less(tree.insert, x, ItemOf(t.item))
      invariant p == RootOf(if left then t.left else t.right, sentinel)
      invariant p == sentinel <==> (if left then t.left else t.right).Leaf?
      decreases t
    {
      ghost var d := if left then InL(c, t.item, t.red, t.right) else InR(c, t.item, t.red, t.left);
      AtUp(Snapshot(tree.Repr), d, if left then t.left else t.right, sentinel, tree.root);
      c, t := d, if left then t.left else t.right;
      temp := p;
      PlaceOf(tree.Repr, c, t, sentinel, tree.root);
      left := Less(tree.insert, x, Item(temp.key, temp.str));
      p := if left then temp.left else temp.right;
      turns := turns + 1;
    }
    DepthHeight(c, t);
    TurnsBound(tree.shape, turns);
    c := if left then InL(c, t.item, t.red, t.right) else InR(c, t.item, t.red, t.left);
    AtUp(Snapshot(tree.Repr), c, Leaf, sentinel, tree.root);
  }

  /** There is room between the ranks around a hole. */
  lemma {:induction false} LeafHole(m: Memory, c: Hole, s: Node, top: Node)
    requires At(m, c, Leaf, s, top)
    ensures HoleOrdered(c) && HoleLinked(m, c, s, s, top) && Lo(c) < Hi(c)
  {
    RoomInHole(c);
  }

  lemma {:induction false} RoomInHole(c: Hole)
    requires HoleOrdered(c)
    ensures Lo(c) < Hi(c)
  {
  }

  /** The first node of an empty tree. */
  method InsertRoot(tree: RbTree, node: Node)
    requires tree.Valid() && tree.shape.Leaf? && node !in tree.Repr
    modifies tree`root, tree`shape, tree`Repr, node
    ensures tree.Valid() && tree.Repr == old(tree.Repr) + {node}
    ensures node.key == old(node.key) && node.str == old(node.str)
    ensures InOrder(tree.shape) == [EntryOf(node)]
  {
    node.parent := null;
    node.left := tree.sentinel;
    node.right := tree.sentinel;
    node.red := false;
    tree.root := node;
    node.rank := 0.5;
    tree.Repr := tree.Repr + {node};
    tree.shape := Br(Leaf, EntryOf(node), false, Leaf);
    ghost var m := Snapshot(tree.Repr);
    assert Holds(m, EntryOf(node), false, tree.sentinel, tree.sentinel, tree.sentinel);
    RootLeafAt(m, EntryOf(node), tree.sentinel);
  }

  lemma RootLeafAt(m: Memory, e: Entry, s: Node)
    requires Holds(m, e, false, s, s, s) && e.node != s && 0.0 < e.rank < 1.0
    ensures At(m, Top, Br(Leaf, e, false, Leaf), s, e.node)
  {
    assert RootOf(Br(Leaf, e, false, Leaf), s) == e.node;
  }

  /** A red leaf in a hole of a red-black tree stands between what is left and right of the hole. */
  lemma {:induction false} LeafInserted<T>(c: Ctx<T>, e: T)
    requires RedBlack(Fill(c, Leaf))
    ensures Repairing(c, Br(Leaf, e, true, Leaf))
    ensures var before, k := InOrder(Fill(c, Leaf)), |Before(c)|;
      k <= |before| && InOrder(Fill(c, Br(Leaf, e, true, Leaf))) == before[..k] + [e] + before[k..]
  {
    FillInOrder(c, Leaf);
    FillRedBlack(c, Leaf);
    FillInOrder(c, Br(Leaf, e, true, Leaf));
  }

  /** The entries of the in-order sequence are the fields of the nodes. */
  lemma {:induction false} EntriesMatch(tree: RbTree)
    requires tree.Valid()
    ensures forall e <- InOrder(tree.shape) :: e.node in tree.Repr && e.node != tree.sentinel && EntryOf(e.node) == e
  {
    LinkedEntries(tree.Repr, tree.shape, tree.sentinel);
  }

  lemma {:induction false} LinkedEntries(region: set<Node>, t: Shape, s: Node)
    requires Linked(Snapshot(region), t, s)
    ensures forall e <- InOrder(t) :: e.node in region && e.node != s && EntryOf(e.node) == e
  {
    if t.Br? {
      LinkedEntries(region, t.left, s);
      LinkedEntries(region, t.right, s);
    }
  }

  /** ngx_rbtree.c:29-77, for a tree that is not empty. */
  method InsertBelow(tree: RbTree, node: Node)
    requires tree.Valid() && tree.shape.Br? && node !in tree.Repr
    modifies tree`root, tree`shape, tree`Repr, tree.Repr, node
    ensures tree.Valid() && tree.Repr == old(tree.Repr) + {node}
    ensures node.key == old(node.key) && node.str == old(node.str)
    ensures var before, k := old(InOrder(tree.shape)), old(Slot(tree.insert, tree.shape, Item(node.key, node.str)));
      k <= |before| && InOrder(tree.shape) == before[..k] + [EntryOf(node)] + before[k..]
  {
    hide At, RedBlack, Fill, Before, InOrder, Slot, CtxBalanced, CtxNoRedRed, Sound;
    var temp, left;
    ghost var c, turns;
    temp, left, c, turns := Descend(tree, tree.root, node);
    HangLeafAt(tree, temp, left, node, c);
    ghost var e := EntryOf(node);
    LeafInserted(c, e);
    turns := Repair(tree, node, c, Br(Leaf, e, true, Leaf));
    EntriesMatch(tree);
    assert e in InOrder(tree.shape);
  }

  /** ngx_rbtree_insert. In a sorted tree the new node stands after every node not greater; `w` is the start
      of the window of a timer tree and means nothing to the other trees. */
  method Insert(tree: RbTree, node: Node, ghost w: Key) returns (ghost k: nat)
    requires tree.Valid() && node !in tree.Repr
    modifies tree`root, tree`shape, tree`Repr, tree.Repr, node
    ensures tree.Valid() && tree.Repr == old(tree.Repr) + {node}
    ensures node.key == old(node.key) && node.str == old(node.str)
    ensures var before := old(InOrder(tree.shape));
      k <= |before| && InOrder(tree.shape) == before[..k] + [EntryOf(node)] + before[k..]
    ensures var o, before, after := tree.insert, old(InOrder(tree.shape)), InOrder(tree.shape);
      SortedIn(o, w, before) && InWindow(o, w, Item(node.key, node.str)) ==>
        Placed(o, before, EntryOf(node), after, k) && SortedIn(o, w, after)
  {
    ghost var o, before, x := tree.insert, InOrder(tree.shape), Item(node.key, node.str);
    k := Slot(o, tree.shape, x);
    if SortedIn(o, w, before) && InWindow(o, w, x) {
      SlotSeparates(o, w, tree.shape, x);
    }
    EmptyOrNot(tree);
    hide SortedIn, Less, Slot;
    if tree.root == tree.sentinel {
      InsertRoot(tree, node);
    } else {
      InsertBelow(tree, node);
    }
    if SortedIn(o, w, before) && InWindow(o, w, x) {
      PlacedSorted(o, w, before, EntryOf(node), InOrder(tree.shape), k);
    }
  }

  lemma {:induction false} EmptyOrNot(tree: RbTree)
    requires tree.Valid()
    ensures tree.shape.Leaf? <==> tree.root == tree.sentinel
  {
    if tree.shape.Br? {
      PlaceOf(tree.Repr, Top, tree.shape, tree.sentinel, tree.root);
    }
  }
}
