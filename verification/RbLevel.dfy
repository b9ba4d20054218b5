/** After a black node left the tree: the climb that repairs the black heights. */
module RbLevel {
  import opened RbShape
  import opened RbHeap
  import opened RbRotate

  /** The subtree in the hole of `c` is one black node short. A red root may have a red child, since the loop
      stops there and blackens it. */
  predicate Short<T>(c: Ctx<T>, t: Tree<T>) {
    Sound(Blacken(t)) && CtxBalanced(c, Bh(t) + 1) && CtxNoRedRed(c, false)
  }

  /** The cursor of the repair: `temp` is the root of the subtree in the hole of `c`, or the sentinel, whose
      parent field then leads up all the same. */
  ghost predicate Cursor(tree: RbTree, temp: Node, c: Hole, t: Shape)
    reads tree, tree.Repr
  {
    && tree.sentinel in tree.Repr && !tree.sentinel.red
    && At(Snapshot(tree.Repr), c, t, tree.sentinel, tree.root)
    && temp == RootOf(t, tree.sentinel) && temp in tree.Repr
    && (!c.Top? ==> temp.parent == c.item.node)
  }

  /** The sibling of a short black subtree is a node. */
  lemma {:induction false} SiblingIsNode<T>(c: Ctx<T>, t: Tree<T>)
    requires Short(c, t) && !c.Top? && !IsRed(t)
    ensures Sound(t) && c.sib.Br? && Sound(c.sib) && Bh(c.sib) == Bh(t) + 1
    ensures IsRed(c.sib) ==> !c.red && c.sib.left.Br? && c.sib.right.Br?
    ensures CtxNoRedRed(c.up, c.red) && CtxNoRedRed(c.up, false)
    ensures CtxBalanced(c.up, Bh(t) + 1 + (if c.red then 0 else 1))
  {
    CtxAcceptsBlack(c.up, c.red);
  }

  /** Black sibling without red children: it becomes red and the parent's subtree is short. */
  lemma {:induction false} PassedUpKeeps<T>(c: Ctx<T>, t: Tree<T>)
    requires Short(c, t) && !IsRed(t) && !c.Top?
    requires c.sib.Br? && !c.sib.red && !IsRed(c.sib.left) && !IsRed(c.sib.right)
    ensures Short(c.up, PassedUp(c, t))
    ensures InOrder(Fill(c.up, PassedUp(c, t))) == InOrder(Fill(c, t))
  {
    SiblingIsNode(c, t);
    var w := c.sib;
    assert Sound(w.(red := true)) && Bh(w.(red := true)) == Bh(t);
    SameInOrder(c.up, PassedUp(c, t), if c.InL? then Br(t, c.item, c.red, w) else Br(w, c.item, c.red, t));
  }

  function PassedUp<T>(c: Ctx<T>, t: Tree<T>): Tree<T>
    requires !c.Top? && c.sib.Br?
  {
    if c.InL? then Br(t, c.item, c.red, c.sib.(red := true)) else Br(c.sib.(red := true), c.item, c.red, t)
  }

  /** ngx_rbtree.c:255-256 and 284-285 */
  method PassUp(tree: RbTree, temp: Node, w: Node, ghost c: Hole, ghost t: Shape) returns (next: Node)
    requires Cursor(tree, temp, c, t) && !c.Top? && c.sib.Br? && c.sib.item.node == w
    modifies tree`root, tree.Repr
    ensures Cursor(tree, next, c.up, PassedUp(c, t))
  {
    hide At;
    ghost var s, r := tree.sentinel, tree.Repr;
    HolePlaceOf(r, c, t, s, tree.root);
    AtUp(Snapshot(r), c, t, s, tree.root);
    ghost var cw := if c.InL? then InR(c.up, c.item, c.red, t) else InL(c.up, c.item, c.red, t);
    AtUp(Snapshot(r), cw, c.sib, s, tree.root);
    next := temp.parent;
    tree.Paint(w, true, cw, c.sib);
    AtUp(Snapshot(r), cw, c.sib.(red := true), s, tree.root);
    PlaceOf(r, c.up, PassedUp(c, t), s, tree.root);
  }

  // ----- the hole is a left child

  /** Red sibling: a rotation puts a black node in its place. */
  function RedSiblingL<T>(c: Ctx<T>): Ctx<T>
    requires c.InL? && c.sib.Br?
  {
    InL(InL(c.up, c.sib.item, false, c.sib.right), c.item, true, c.sib.left)
  }

  lemma {:induction false} RedSiblingLKeeps<T>(c: Ctx<T>, t: Tree<T>)
    requires Short(c, t) && !IsRed(t) && c.InL? && IsRed(c.sib)
    ensures c.sib.Br? && Short(RedSiblingL(c), t) && !IsRed(RedSiblingL(c).sib)
    ensures InOrder(Fill(RedSiblingL(c), t)) == InOrder(Fill(c, t))
  {
    SiblingIsNode(c, t);
    var w := c.sib;
    SameInOrder(c.up, Br(t, c.item, c.red, w), Br(Br(t, c.item, true, w.left), w.item, false, w.right));
  }

  /** ngx_rbtree.c:248-250 */
  method RotateRedSiblingL(tree: RbTree, temp: Node, ghost c: Hole, ghost t: Shape)
    requires Cursor(tree, temp, c, t) && c.InL? && c.sib.Br?
    modifies tree`root, tree.Repr
    ensures Cursor(tree, temp, RedSiblingL(c), t)
  {
    hide At;
    ghost var s, r, w := tree.sentinel, tree.Repr, c.sib;
    HolePlaceOf(r, c, t, s, tree.root);
    AtUp(Snapshot(r), c, t, s, tree.root);
    ghost var cw := InR(c.up, c.item, c.red, t);
    AtUp(Snapshot(r), cw, w, s, tree.root);
    var parent := temp.parent;
    tree.Paint(parent.right, false, cw, w);
    AtUp(Snapshot(r), cw, w.(red := false), s, tree.root);
    tree.Paint(parent, true, c.up, Br(t, c.item, c.red, w.(red := false)));
    tree.LeftRotateAt(parent, c.up, Br(t, c.item, true, w.(red := false)));
    AtUp(Snapshot(r), InL(c.up, w.item, false, w.right), Br(t, c.item, true, w.left), s, tree.root);
    AtUp(Snapshot(r), RedSiblingL(c), t, s, tree.root);
    if t.Br? { PlaceOf(r, RedSiblingL(c), t, s, tree.root); }
  }

  /** Black sibling whose inner child alone is red: a rotation below the sibling makes the outer one red. */
  function OuterRedL<T>(c: Ctx<T>): Ctx<T>
    requires c.InL? && c.sib.Br? && c.sib.left.Br?
  {
    var w, v := c.sib, c.sib.left;
    InL(c.up, c.item, c.red, Br(v.left, v.item, false, Br(v.right, w.item, true, w.right)))
  }

  lemma {:induction false} OuterRedLKeeps<T>(c: Ctx<T>, t: Tree<T>)
    requires Short(c, t) && !IsRed(t) && c.InL?
    requires c.sib.Br? && !c.sib.red && IsRed(c.sib.left) && !IsRed(c.sib.right)
    ensures Short(OuterRedL(c), t) && !OuterRedL(c).sib.red && IsRed(OuterRedL(c).sib.right)
    ensures InOrder(Fill(OuterRedL(c), t)) == InOrder(Fill(c, t))
  {
    SiblingIsNode(c, t);
    var w, w' := c.sib, OuterRedL(c).sib;
    assert Sound(w.left) && Sound(w.right) && Sound(w.left.left) && Sound(w.left.right);
    assert Sound(w'.right) && Sound(w') && Bh(w') == Bh(w);
    assert InOrder(w) == InOrder(w');
    SameInOrder(c.up, Br(t, c.item, c.red, w), Br(t, c.item, c.red, w'));
  }

  /** ngx_rbtree.c:260-262 */
  method RotateSiblingL(tree: RbTree, temp: Node, w: Node, ghost c: Hole, ghost t: Shape)
    requires Cursor(tree, temp, c, t) && c.InL? && c.sib.Br? && c.sib.item.node == w && c.sib.left.Br?
    modifies tree`root, tree.Repr
    ensures Cursor(tree, temp, OuterRedL(c), t)
  {
    hide At;
    ghost var s, r, u := tree.sentinel, tree.Repr, c.sib;
    AtUp(Snapshot(r), c, t, s, tree.root);
    ghost var cw := InR(c.up, c.item, c.red, t);
    AtUp(Snapshot(r), cw, u, s, tree.root);
    ghost var cv := InL(cw, u.item, u.red, u.right);
    AtUp(Snapshot(r), cv, u.left, s, tree.root);
    PlaceOf(r, cw, u, s, tree.root);
    tree.Paint(w.left, false, cv, u.left);
    AtUp(Snapshot(r), cv, u.left.(red := false), s, tree.root);
    tree.Paint(w, true, cw, u.(left := u.left.(red := false)));
    tree.RightRotateAt(w, cw, u.(left := u.left.(red := false), red := true));
    AtUp(Snapshot(r), cw, OuterRedL(c).sib, s, tree.root);
    AtUp(Snapshot(r), OuterRedL(c), t, s, tree.root);
    if t.Br? { PlaceOf(r, OuterRedL(c), t, s, tree.root); }
  }

  /** Black sibling with a red outer child: a rotation at the parent ends the repair. */
  function LevelledL<T>(c: Ctx<T>, t: Tree<T>): Tree<T>
    requires c.InL? && c.sib.Br? && c.sib.right.Br?
  {
    Br(Br(t, c.item, false, c.sib.left), c.sib.item, c.red, c.sib.right.(red := false))
  }

  lemma {:induction false} LevelledLOrder<T>(c: Ctx<T>, t: Tree<T>)
    requires c.InL? && c.sib.Br? && c.sib.right.Br?
    ensures InOrder(LevelledL(c, t)) == InOrder(Br(t, c.item, c.red, c.sib))
  {
    var w := c.sib;
    assert InOrder(w.right.(red := false)) == InOrder(w.right);
    assert InOrder(Br(t, c.item, c.red, w)) == InOrder(t) + [c.item] + (InOrder(w.left) + [w.item] + InOrder(w.right));
  }

  lemma {:induction false} LevelledLKeeps<T>(c: Ctx<T>, t: Tree<T>)
    requires Short(c, t) && !IsRed(t) && c.InL? && c.sib.Br? && !c.sib.red && IsRed(c.sib.right)
    ensures RedBlack(Fill(c.up, LevelledL(c, t)))
    ensures InOrder(Fill(c.up, LevelledL(c, t))) == InOrder(Fill(c, t))
  {
    SiblingIsNode(c, t);
    var w := c.sib;
    assert Sound(w.left) && Sound(w.right) && Bh(w.left) == Bh(t) == Bh(w.right);
    assert Sound(w.right.(red := false)) && Bh(w.right.(red := false)) == Bh(t) + 1;
    assert Sound(Br(t, c.item, false, w.left));
    LevelledLOrder(c, t);
    SameInOrder(c.up, LevelledL(c, t), Br(t, c.item, c.red, w));
    FillRedBlack(c.up, LevelledL(c, t));
  }

  /** ngx_rbtree.c:266-269 */
  method RotateParentL(tree: RbTree, temp: Node, w: Node, ghost c: Hole, ghost t: Shape)
    requires Cursor(tree, temp, c, t) && c.InL? && c.sib.Br? && c.sib.item.node == w && c.sib.right.Br?
    modifies tree`root, tree.Repr
    ensures tree.sentinel in tree.Repr && !tree.sentinel.red
    ensures At(Snapshot(tree.Repr), c.up, LevelledL(c, t), tree.sentinel, tree.root)
  {
    hide At;
    ghost var s, r, u := tree.sentinel, tree.Repr, c.sib;
    HolePlaceOf(r, c, t, s, tree.root);
    AtUp(Snapshot(r), c, t, s, tree.root);
    ghost var cw := InR(c.up, c.item, c.red, t);
    AtUp(Snapshot(r), cw, u, s, tree.root);
    PlaceOf(r, cw, u, s, tree.root);
    var parent, outer := temp.parent, w.right;
    tree.Paint(w, parent.red, cw, u);
    ghost var u1, u2 := u.(red := c.red), u.(red := c.red, right := u.right.(red := false));
    AtUp(Snapshot(r), cw, u1, s, tree.root);
    tree.Paint(parent, false, c.up, Br(t, c.item, c.red, u1));
    ghost var cb := InR(c.up, c.item, false, t);
    AtUp(Snapshot(r), cb, u1, s, tree.root);
    ghost var co := InR(cb, u.item, c.red, u.left);
    AtUp(Snapshot(r), co, u.right, s, tree.root);
    tree.Paint(outer, false, co, u.right);
    AtUp(Snapshot(r), co, u2.right, s, tree.root);
    AtUp(Snapshot(r), cb, u2, s, tree.root);
    tree.LeftRotateAt(parent, c.up, Br(t, c.item, false, u2));
  }

  // ----- the hole is a right child

  /** Red sibling: a rotation puts a black node in its place. */
  function RedSiblingR<T>(c: Ctx<T>): Ctx<T>
    requires c.InR? && c.sib.Br?
  {
    InR(InR(c.up, c.sib.item, false, c.sib.left), c.item, true, c.sib.right)
  }

  lemma {:induction false} RedSiblingRKeeps<T>(c: Ctx<T>, t: Tree<T>)
    requires Short(c, t) && !IsRed(t) && c.InR? && IsRed(c.sib)
    ensures c.sib.Br? && Short(RedSiblingR(c), t) && !IsRed(RedSiblingR(c).sib)
    ensures InOrder(Fill(RedSiblingR(c), t)) == InOrder(Fill(c, t))
  {
    SiblingIsNode(c, t);
    var w := c.sib;
    SameInOrder(c.up, Br(w, c.item, c.red, t), Br(w.left, w.item, false, Br(w.right, c.item, true, t)));
  }

  /** ngx_rbtree.c:277-279 */
  method RotateRedSiblingR(tree: RbTree, temp: Node, ghost c: Hole, ghost t: Shape)
    requires Cursor(tree, temp, c, t) && c.InR? && c.sib.Br?
    modifies tree`root, tree.Repr
    ensures Cursor(tree, temp, RedSiblingR(c), t)
  {
    hide At;
    ghost var s, r, w := tree.sentinel, tree.Repr, c.sib;
    HolePlaceOf(r, c, t, s, tree.root);
    AtUp(Snapshot(r), c, t, s, tree.root);
    ghost var cw := InL(c.up, c.item, c.red, t);
    AtUp(Snapshot(r), cw, w, s, tree.root);
    var parent := temp.parent;
    tree.Paint(parent.left, false, cw, w);
    AtUp(Snapshot(r), cw, w.(red := false), s, tree.root);
    tree.Paint(parent, true, c.up, Br(w.(red := false), c.item, c.red, t));
    tree.RightRotateAt(parent, c.up, Br(w.(red := false), c.item, true, t));
    AtUp(Snapshot(r), InR(c.up, w.item, false, w.left), Br(w.right, c.item, true, t), s, tree.root);
    AtUp(Snapshot(r), RedSiblingR(c), t, s, tree.root);
    if t.Br? { PlaceOf(r, RedSiblingR(c), t, s, tree.root); }
  }

  /** Black sibling whose inner child alone is red: a rotation below the sibling makes the outer one red. */
  function OuterRedR<T>(c: Ctx<T>): Ctx<T>
    requires c.InR? && c.sib.Br? && c.sib.right.Br?
  {
    var w, v := c.sib, c.sib.right;
    InR(c.up, c.item, c.red, Br(Br(w.left, w.item, true, v.left), v.item, false, v.right))
  }

  lemma {:induction false} OuterRedRKeeps<T>(c: Ctx<T>, t: Tree<T>)
    requires Short(c, t) && !IsRed(t) && c.InR?
    requires c.sib.Br? && !c.sib.red && IsRed(c.sib.right) && !IsRed(c.sib.left)
    ensures Short(OuterRedR(c), t) && !OuterRedR(c).sib.red && IsRed(OuterRedR(c).sib.left)
    ensures InOrder(Fill(OuterRedR(c), t)) == InOrder(Fill(c, t))
  {
    SiblingIsNode(c, t);
    var w, w' := c.sib, OuterRedR(c).sib;
    assert Sound(w.right) && Sound(w.left) && Sound(w.right.right) && Sound(w.right.left);
    assert Sound(w'.left) && Sound(w') && Bh(w') == Bh(w);
    assert InOrder(w) == InOrder(w');
    SameInOrder(c.up, Br(w, c.item, c.red, t), Br(w', c.item, c.red, t));
  }

  /** ngx_rbtree.c:289-291 */
  method RotateSiblingR(tree: RbTree, temp: Node, w: Node, ghost c: Hole, ghost t: Shape)
    requires Cursor(tree, temp, c, t) && c.InR? && c.sib.Br? && c.sib.item.node == w && c.sib.right.Br?
    modifies tree`root, tree.Repr
    ensures Cursor(tree, temp, OuterRedR(c), t)
  {
    hide At;
    ghost var s, r, u := tree.sentinel, tree.Repr, c.sib;
    AtUp(Snapshot(r), c, t, s, tree.root);
    ghost var cw := InL(c.up, c.item, c.red, t);
    AtUp(Snapshot(r), cw, u, s, tree.root);
    ghost var cv := InR(cw, u.item, u.red, u.left);
    AtUp(Snapshot(r), cv, u.right, s, tree.root);
    PlaceOf(r, cw, u, s, tree.root);
    tree.Paint(w.right, false, cv, u.right);
    AtUp(Snapshot(r), cv, u.right.(red := false), s, tree.root);
    tree.Paint(w, true, cw, u.(right := u.right.(red := false)));
    tree.LeftRotateAt(w, cw, u.(right := u.right.(red := false), red := true));
    AtUp(Snapshot(r), cw, OuterRedR(c).sib, s, tree.root);
    AtUp(Snapshot(r), OuterRedR(c), t, s, tree.root);
    if t.Br? { PlaceOf(r, OuterRedR(c), t, s, tree.root); }
  }

  /** Black sibling with a red outer child: a rotation at the parent ends the repair. */
  function LevelledR<T>(c: Ctx<T>, t: Tree<T>): Tree<T>
    requires c.InR? && c.sib.Br? && c.sib.left.Br?
  {
    Br(c.sib.left.(red := false), c.sib.item, c.red, Br(c.sib.right, c.item, false, t))
  }

  lemma {:induction false} LevelledROrder<T>(c: Ctx<T>, t: Tree<T>)
    requires c.InR? && c.sib.Br? && c.sib.left.Br?
    ensures InOrder(LevelledR(c, t)) == InOrder(Br(c.sib, c.item, c.red, t))
  {
    var w := c.sib;
    assert InOrder(w.left.(red := false)) == InOrder(w.left);
    assert InOrder(Br(w, c.item, c.red, t)) == (InOrder(w.left) + [w.item] + InOrder(w.right)) + [c.item] + InOrder(t);
  }

  lemma {:induction false} LevelledRKeeps<T>(c: Ctx<T>, t: Tree<T>)
    requires Short(c, t) && !IsRed(t) && c.InR? && c.sib.Br? && !c.sib.red && IsRed(c.sib.left)
    ensures RedBlack(Fill(c.up, LevelledR(c, t)))
    ensures InOrder(Fill(c.up, LevelledR(c, t))) == InOrder(Fill(c, t))
  {
    SiblingIsNode(c, t);
    var w := c.sib;
    assert Sound(w.right) && Sound(w.left) && Bh(w.right) == Bh(t) == Bh(w.left);
    assert Sound(w.left.(red := false)) && Bh(w.left.(red := false)) == Bh(t) + 1;
    assert Sound(Br(w.right, c.item, false, t));
    LevelledROrder(c, t);
    SameInOrder(c.up, LevelledR(c, t), Br(w, c.item, c.red, t));
    FillRedBlack(c.up, LevelledR(c, t));
  }

  /** ngx_rbtree.c:295-298 */
  method RotateParentR(tree: RbTree, temp: Node, w: Node, ghost c: Hole, ghost t: Shape)
    requires Cursor(tree, temp, c, t) && c.InR? && c.sib.Br? && c.sib.item.node == w && c.sib.left.Br?
    modifies tree`root, tree.Repr
    ensures tree.sentinel in tree.Repr && !tree.sentinel.red
    ensures At(Snapshot(tree.Repr), c.up, LevelledR(c, t), tree.sentinel, tree.root)
  {
    hide At;
    ghost var s, r, u := tree.sentinel, tree.Repr, c.sib;
    HolePlaceOf(r, c, t, s, tree.root);
    AtUp(Snapshot(r), c, t, s, tree.root);
    ghost var cw := InL(c.up, c.item, c.red, t);
    AtUp(Snapshot(r), cw, u, s, tree.root);
    PlaceOf(r, cw, u, s, tree.root);
    var parent, outer := temp.parent, w.left;
    tree.Paint(w, parent.red, cw, u);
    ghost var u1, u2 := u.(red := c.red), u.(red := c.red, left := u.left.(red := false));
    AtUp(Snapshot(r), cw, u1, s, tree.root);
    tree.Paint(parent, false, c.up, Br(u1, c.item, c.red, t));
    ghost var cb := InL(c.up, c.item, false, t);
    AtUp(Snapshot(r), cb, u1, s, tree.root);
    ghost var co := InL(cb, u.item, c.red, u.right);
    AtUp(Snapshot(r), co, u.left, s, tree.root);
    tree.Paint(outer, false, co, u.left);
    AtUp(Snapshot(r), co, u2.left, s, tree.root);
    AtUp(Snapshot(r), cb, u2, s, tree.root);
    tree.RightRotateAt(parent, c.up, Br(u2, c.item, false, t));
  }

  // ----- the repair

  /** A node (or the sentinel) at the root of `t`, and its colour. */
  ghost predicate Shows(tree: RbTree, n: Node?, t: Shape)
    reads tree, tree.Repr
  {
    n == RootOf(t, tree.sentinel) && n in tree.Repr && n.red == IsRed(t)
  }

  /** What the loop of ngx_rbtree_delete finds around `temp`. */
  ghost predicate Around(tree: RbTree, temp: Node, c: Hole, t: Shape)
    reads tree, tree.Repr
  {
    && Shows(tree, temp, t)
    && (c.Top? <==> temp == tree.root)
    && (!c.Top? && c.sib.Br? ==>
      var p, w := c.item.node, c.sib.item.node;
      && temp.parent == p && p in tree.Repr && (temp == p.left <==> c.InL?)
      && (if c.InL? then p.right == w else p.left == w)
      && Shows(tree, w, c.sib) && Shows(tree, w.left, c.sib.left) && Shows(tree, w.right, c.sib.right))
  }

  lemma {:induction false} AroundOf(tree: RbTree, temp: Node, c: Hole, t: Shape)
    requires Cursor(tree, temp, c, t)
    ensures Around(tree, temp, c, t)
  {
    hide At;
    var m, s, r := Snapshot(tree.Repr), tree.sentinel, tree.Repr;
    HolePlaceOf(r, c, t, s, tree.root);
    if t.Br? { PlaceOf(r, c, t, s, tree.root); }
    if !c.Top? && c.sib.Br? {
      AtUp(m, c, t, s, tree.root);
      var cw := if c.InL? then InR(c.up, c.item, c.red, t) else InL(c.up, c.item, c.red, t);
      AtUp(m, cw, c.sib, s, tree.root);
      PlaceOf(r, cw, c.sib, s, tree.root);
      var cl, cr := InL(cw, c.sib.item, c.sib.red, c.sib.right), InR(cw, c.sib.item, c.sib.red, c.sib.left);
      AtUp(m, cl, c.sib.left, s, tree.root);
      AtUp(m, cr, c.sib.right, s, tree.root);
      if c.sib.left.Br? { PlaceOf(r, cl, c.sib.left, s, tree.root); }
      if c.sib.right.Br? { PlaceOf(r, cr, c.sib.right, s, tree.root); }
    }
  }

  /** How many turns the repair takes from the hole `c` of a black subtree: one for each black sibling without red
      children on the way up to a red parent or the root, or to the first other sibling, where rotations end it. */
  ghost function Turns<T>(c: Ctx<T>): nat {
    if c.Top? then 0
    else if c.sib.Br? && (c.sib.red || IsRed(c.sib.left) || IsRed(c.sib.right)) then 1
    else 1 + if c.red then 0 else Turns(c.up)
  }

  lemma {:induction false} TurnsDepth<T>(c: Ctx<T>)
    ensures Turns(c) <= Depth(c)
  {
    if !c.Top? { TurnsDepth(c.up); }
  }

  /** The turns that are left: none once the cursor is red. */
  ghost function TurnsLeft<T>(c: Ctx<T>, t: Tree<T>): nat { if IsRed(t) then 0 else Turns(c) }

  /** The branch of the loop for a left child. */
  method StepL(tree: RbTree, temp: Node, ghost c0: Hole, ghost t: Shape)
    returns (next: Node, ghost c': Hole, ghost t': Shape)
    requires Cursor(tree, temp, c0, t) && Short(c0, t) && !IsRed(t) && c0.InL?
    modifies tree`root, tree.Repr
    ensures Cursor(tree, next, c', t') && Short(c', t')
    ensures InOrder(Fill(c', t')) == InOrder(Fill(c0, t))
    ensures c'.Top? || IsRed(t') || Depth(c') < Depth(c0)
    ensures TurnsLeft(c', t') + 1 == Turns(c0)
  {
    hide At, Sound, CtxBalanced, CtxNoRedRed, Fill, InOrder, Bh;
    ghost var c := c0;
    SiblingIsNode(c, t);
    AroundOf(tree, temp, c, t);
    var w := temp.parent.right;
    if w.red {
      RedSiblingLKeeps(c, t);
      RotateRedSiblingL(tree, temp, c, t);
      c := RedSiblingL(c);
      SiblingIsNode(c, t);
      AroundOf(tree, temp, c, t);
      w := temp.parent.right;
    }
    if !w.left.red && !w.right.red {
      PassedUpKeeps(c, t);
      next := PassUp(tree, temp, w, c, t);
      c', t' := c.up, PassedUp(c, t);
    } else {
      if !w.right.red {
        OuterRedLKeeps(c, t);
        RotateSiblingL(tree, temp, w, c, t);
        c := OuterRedL(c);
        AroundOf(tree, temp, c, t);
        w := temp.parent.right;
      }
      LevelledLKeeps(c, t);
      RotateParentL(tree, temp, w, c, t);
      next, c', t' := Finish(tree, c.up, LevelledL(c, t));
    }
  }

  /** The branch of the loop for a right child. */
  method StepR(tree: RbTree, temp: Node, ghost c0: Hole, ghost t: Shape)
    returns (next: Node, ghost c': Hole, ghost t': Shape)
    requires Cursor(tree, temp, c0, t) && Short(c0, t) && !IsRed(t) && c0.InR?
    modifies tree`root, tree.Repr
    ensures Cursor(tree, next, c', t') && Short(c', t')
    ensures InOrder(Fill(c', t')) == InOrder(Fill(c0, t))
    ensures c'.Top? || IsRed(t') || Depth(c') < Depth(c0)
    ensures TurnsLeft(c', t') + 1 == Turns(c0)
  {
    hide At, Sound, CtxBalanced, CtxNoRedRed, Fill, InOrder, Bh;
    ghost var c := c0;
    SiblingIsNode(c, t);
    AroundOf(tree, temp, c, t);
    var w := temp.parent.left;
    if w.red {
      RedSiblingRKeeps(c, t);
      RotateRedSiblingR(tree, temp, c, t);
      c := RedSiblingR(c);
      SiblingIsNode(c, t);
      AroundOf(tree, temp, c, t);
      w := temp.parent.left;
    }
    if !w.right.red && !w.left.red {
      PassedUpKeeps(c, t);
      next := PassUp(tree, temp, w, c, t);
      c', t' := c.up, PassedUp(c, t);
    } else {
      if !w.left.red {
        OuterRedRKeeps(c, t);
        RotateSiblingR(tree, temp, w, c, t);
        c := OuterRedR(c);
        AroundOf(tree, temp, c, t);
        w := temp.parent.left;
      }
      LevelledRKeeps(c, t);
      RotateParentR(tree, temp, w, c, t);
      next, c', t' := Finish(tree, c.up, LevelledR(c, t));
    }
  }

  /** `temp = *root` */
  method Finish(tree: RbTree, ghost c: Hole, ghost t: Shape) returns (next: Node, ghost c': Hole, ghost t': Shape)
    requires tree.sentinel in tree.Repr && !tree.sentinel.red && t.Br?
    requires At(Snapshot(tree.Repr), c, t, tree.sentinel, tree.root) && RedBlack(Fill(c, t))
    ensures c' == Top && Cursor(tree, next, c', t') && Short(c', t')
    ensures InOrder(Fill(c', t')) == InOrder(Fill(c, t))
  {
    next, c', t' := tree.root, Top, Fill(c, t);
    AtFill(Snapshot(tree.Repr), c, t, tree.sentinel, tree.root);
    FillInOrder(c, t);
    PlaceOf(tree.Repr, c', t', tree.sentinel, tree.root);
  }

  /** The loop of ngx_rbtree_delete and the statement after it. */
  method Repair(tree: RbTree, start: Node, ghost c0: Hole, ghost t0: Shape) returns (ghost turns: nat)
    requires Cursor(tree, start, c0, t0) && Short(c0, t0)
    modifies tree`root, tree`shape, tree.Repr
    ensures turns == TurnsLeft(c0, t0) <= Depth(c0) <= Height(Fill(c0, t0))
    ensures tree.Valid() && InOrder(tree.shape) == InOrder(Fill(c0, t0))
  {
    hide At, Sound, CtxBalanced, CtxNoRedRed, Fill, InOrder, Bh;
    var temp := start;
    ghost var c, t := c0, t0;
    AroundOf(tree, temp, c, t);
    DepthHeight(c, t);
    TurnsDepth(c);
    turns := 0;
    while temp != tree.root && !temp.red
      invariant Cursor(tree, temp, c, t) && Short(c, t) && Around(tree, temp, c, t)
      invariant turns + TurnsLeft(c, t) == TurnsLeft(c0, t0)
      invariant InOrder(Fill(c, t)) == InOrder(Fill(c0, t0))
      decreases if IsRed(t) then 0 else Depth(c)
    {
      SiblingIsNode(c, t);
      if temp == temp.parent.left {
        temp, c, t := StepL(tree, temp, c, t);
      } else {
        temp, c, t := StepR(tree, temp, c, t);
      }
      AroundOf(tree, temp, c, t);
      turns := turns + 1;
    }
    Blackened(tree, temp, c, t);
  }

  /** ngx_rbtree.c:304 */
  method Blackened(tree: RbTree, temp: Node, ghost c: Hole, ghost t: Shape)
    requires Cursor(tree, temp, c, t) && Short(c, t) && (c.Top? || IsRed(t))
    modifies tree`shape, tree.Repr
    ensures tree.Valid() && InOrder(tree.shape) == InOrder(Fill(c, t))
  {
    hide At, Sound, CtxBalanced, CtxNoRedRed;
    LevelAgain(c, t);
    ghost var m := Snapshot(tree.Repr);
    temp.red := false;
    if t.Br? {
      PaintedAt(m, Snapshot(tree.Repr), false, c, t, tree.sentinel, tree.root);
    } else {
      assert Snapshot(tree.Repr) == m;
    }
    tree.shape := Fill(c, Blacken(t));
    AtFill(Snapshot(tree.Repr), c, Blacken(t), tree.sentinel, tree.root);
  }

  lemma {:induction false} LevelAgain<T>(c: Ctx<T>, t: Tree<T>)
    requires Short(c, t) && (c.Top? || IsRed(t))
    ensures RedBlack(Fill(c, Blacken(t))) && InOrder(Fill(c, Blacken(t))) == InOrder(Fill(c, t))
  {
    FillRedBlack(c, Blacken(t));
    SameInOrder(c, t, Blacken(t));
  }
}
