/** The operations that only read: the next node in order and the lookup of a string. */
module RbSearch {
  import opened RbShape
  import opened RbHeap
  import opened RbOrder
  import opened RbSorted
  import opened RbRotate
  import opened RbDelete

  /** The loop of ngx_rbtree_next: up to the first ancestor on whose left side we are. */
  method Climb(tree: RbTree, start: Node, ghost c0: Hole, ghost t0: Shape)
    returns (next: Node?, ghost turns: nat, ghost c: Hole, ghost t: Shape)
    requires tree.Valid() && At(Snapshot(tree.Repr), c0, t0, tree.sentinel, tree.root) && Fill(c0, t0) == tree.shape
    requires t0.Br? && t0.item.node == start
    ensures var i, s := |Before(c0)| + |InOrder(t0)|, InOrder(tree.shape);
      i <= |s| && next == if i < |s| then s[i].node else null
    ensures Fill(c, t) == tree.shape && turns + Depth(c) == Depth(c0)
    ensures if next == null then c.Top? else c.InL? && c.item.node == next
  {
    hide At, RedBlack, Linked, Ordered;
    var node := start;
    ghost var i := |Before(c0)| + |InOrder(t0)|;
    c, t, turns := c0, t0, 0;
    while true
      invariant t.Br? && t.item.node == node && At(Snapshot(tree.Repr), c, t, tree.sentinel, tree.root)
      invariant Fill(c, t) == tree.shape && |Before(c)| + |InOrder(t)| == i && turns + Depth(c) == Depth(c0)
      decreases Depth(c)
    {
      PlaceOf(tree.Repr, c, t, tree.sentinel, tree.root);
      FillInOrder(c, t);
      var parent := node.parent;
      if node == tree.root {
        next := null;
        return;
      }
      if node == parent.left {
        next := parent;
        return;
      }
      AtUp(Snapshot(tree.Repr), c, t, tree.sentinel, tree.root);
      node := parent;
      c, t := c.up, Up(c, t);
      turns := turns + 1;
    }
  }

  /** ngx_rbtree_next, which the stale parent of the root never misleads. The turns of its loop lead from the place
      `c` of the given node down to the place `d` of the next, or up to the hole `d` below it. */
  method Next(tree: RbTree, start: Node)
    returns (next: Node?, ghost turns: nat, ghost c: Hole, ghost t: Shape, ghost d: Hole, ghost u: Shape)
    requires tree.Valid() && EntryOf(start) in InOrder(tree.shape)
    ensures forall i :: 0 <= i < |InOrder(tree.shape)| && InOrder(tree.shape)[i].node == start ==>
      next == if i + 1 < |InOrder(tree.shape)| then InOrder(tree.shape)[i + 1].node else null
    ensures Fill(c, t) == Fill(d, u) == tree.shape && t.Br? && t.item.node == start
    ensures if t.right.Br? then u.Br? && u.item.node == next && Depth(d) == Depth(c) + 1 + turns
      else Depth(d) + turns == Depth(c) && if next == null then d.Top? else d.InL? && d.item.node == next
    ensures Pow2(turns) <= (|InOrder(tree.shape)| + 1) * (|InOrder(tree.shape)| + 1)
  {
    hide At, Leftmost, Pow2, Height, RedBlack;
    c, t := Locate(tree.shape, EntryOf(start));
    AtFill(Snapshot(tree.Repr), c, t, tree.sentinel, tree.root);
    PlaceOf(tree.Repr, c, t, tree.sentinel, tree.root);
    FillInOrder(c, t);
    OnlyPlace(tree, |Before(c)| + |InOrder(t.left)|);
    DepthHeight(c, t);
    if start.right != tree.sentinel {
      ghost var base, k := InR(c, t.item, t.red, t.left), Top;
      AtUp(Snapshot(tree.Repr), base, t.right, tree.sentinel, tree.root);
      next, k, u, turns := Min(tree, start.right, base, t.right);
      d := Append(k, base);
      AppendFill(k, base, u);
      DepthAppend(k, base);
      DepthHeight(base, t.right);
    } else {
      next, turns, d, u := Climb(tree, start, c, t);
    }
    TurnsBound(tree.shape, turns);
  }

  /** A node stands at one place only. */
  lemma {:induction false} OnlyPlace(tree: RbTree, i: nat)
    requires tree.Valid() && i < |InOrder(tree.shape)|
    ensures forall j :: 0 <= j < |InOrder(tree.shape)| && InOrder(tree.shape)[j].node == InOrder(tree.shape)[i].node ==>
      j == i
  {
    DistinctNodes(Snapshot(tree.Repr), tree.shape, tree.sentinel, 0.0, 1.0);
  }

  /** What the lookup looks for. */
  predicate Matches(e: Entry, x: Item) { ItemOf(e) == x }

  /** No match stands outside the hole. */
  ghost predicate NoMatchAround(c: Hole, x: Item) {
    (forall e <- Before(c) :: !Matches(e, x)) && (forall e <- After(c) :: !Matches(e, x))
  }

  /** The three comparisons of the lookup in one: it turns left exactly where the item is less. */
  lemma StringTurns(x: Item, y: Item)
    ensures x != y ==> Less(ByString, x, y) || Less(ByString, y, x)
    ensures !Less(ByString, x, x)
  {
    if |x.str| == |y.str| { MemTotal(x.str, y.str); }
    MemTotal(x.str, x.str);
  }

  /** In a sorted sequence a match of a lesser item can only stand further left, of a greater one further right. */
  lemma {:induction false} TurnIsSafe(l: seq<Entry>, y: Entry, r: seq<Entry>, x: Item, p: seq<Entry>, q: seq<Entry>)
    requires SortedIn(ByString, 0, p + (l + [y] + r) + q)
    ensures Less(ByString, x, ItemOf(y)) ==> forall e <- [y] + r :: !Matches(e, x)
    ensures Less(ByString, ItemOf(y), x) ==> forall e <- l + [y] :: !Matches(e, x)
  {
    var s := p + (l + [y] + r) + q;
    StringTurns(x, x);
    assert s == (p + l) + [y] + (r + q);
    SortedParts(ByString, 0, p + l, y, r + q);
    forall e | e in l ensures !Less(ByString, ItemOf(y), ItemOf(e)) { assert e in p + l; }
    forall e | e in r ensures !Less(ByString, ItemOf(e), ItemOf(y)) { assert e in r + q; }
  }

  /** The three tests of the lookup at one node. */
  method Compare(node: Node, val: seq<Byte>, hash: Key) returns (found: bool, left: bool)
    ensures found <==> node.key == hash && node.str == val
    ensures !found ==> left == Less(ByString, Item(hash, val), Item(node.key, node.str))
  {
    StringTurns(Item(hash, val), Item(node.key, node.str));
    found, left := false, false;
    if hash != node.key {
      left := hash < node.key;
    } else if |val| != |node.str| {
      left := |val| < |node.str|;
    } else if MemLess(val, node.str) {
      left := true;
    } else if MemLess(node.str, val) {
      left := false;
    } else {
      found := true;
    }
  }

  /** ngx_str_rbtree_lookup: finds a node with the given hash, length and bytes exactly when there is one. */
  method StrLookup(tree: RbTree, val: seq<Byte>, hash: Key)
    returns (r: Node?, ghost turns: nat, ghost c: Hole, ghost t: Shape)
    requires tree.Valid() && tree.insert.ByString? && SortedIn(ByString, 0, InOrder(tree.shape))
    ensures r != null ==> r.key == hash && r.str == val && EntryOf(r) in InOrder(tree.shape)
    ensures r == null ==> forall e <- InOrder(tree.shape) :: !(e.key == hash && e.str == val)
    ensures turns == Depth(c) && Fill(c, t) == tree.shape
    ensures if r != null then t.Br? && t.item == EntryOf(r)
      else t.Leaf? && |Before(c)| == Slot(ByString, tree.shape, Item(hash, val))
    ensures Pow2(turns) <= (|InOrder(tree.shape)| + 1) * (|InOrder(tree.shape)| + 1)
  {
    hide At, SortedIn, Pow2, Height, RedBlack, Slot, Less, MemLess;
    turns := 0;
    var node := tree.root;
    ghost var x := Item(hash, val);
    c, t := Top, tree.shape;
    HolePlaceOf(tree.Repr, Top, t, tree.sentinel, tree.root);
    NodeOrLeaf(tree, c, t);
    while node != tree.sentinel
      invariant At(Snapshot(tree.Repr), c, t, tree.sentinel, tree.root) && node == RootOf(t, tree.sentinel)
      invariant Fill(c, t) == tree.shape && NoMatchAround(c, x)
      invariant node == tree.sentinel <==> t.Leaf?
      invariant turns == Depth(c) && |Before(c)| + Slot(ByString, t, x) == Slot(ByString, tree.shape, x)
      decreases t
    {
      SlotStep(ByString, t, x);
      PlaceOf(tree.Repr, c, t, tree.sentinel, tree.root);
      FillInOrder(c, t);
      ghost var y := ItemOf(t.item);
      StringTurns(x, y);
      TurnIsSafe(InOrder(t.left), t.item, InOrder(t.right), x, Before(c), After(c));
      var found, left := Compare(node, val, hash);
      if found {
        assert t.item in InOrder(t);
        DepthHeight(c, t);
        TurnsBound(tree.shape, turns);
        r := node;
        return;
      }
      assert left == Less(ByString, x, y) && x != y;
      node := if left then node.left else node.right;
      c, t := if left then InL(c, t.item, t.red, t.right) else InR(c, t.item, t.red, t.left),
        if left then t.left else t.right;
      AtUp(Snapshot(tree.Repr), c, t, tree.sentinel, tree.root);
      NodeOrLeaf(tree, c, t);
      turns := turns + 1;
    }
    FillInOrder(c, t);
    DepthHeight(c, t);
    TurnsBound(tree.shape, turns);
    NoSlots(ByString, x);
    r := null;
  }

  lemma SlotStep(o: Order, t: Shape, x: Item)
    requires t.Br?
    ensures Slot(o, t, x) ==
      if Less(o, x, ItemOf(t.item)) then Slot(o, t.left, x) else |InOrder(t.left)| + 1 + Slot(o, t.right, x)
  {
  }

  lemma NoSlots(o: Order, x: Item)
    ensures Slot(o, Leaf, x) == 0
  {
  }

  lemma {:induction false} NodeOrLeaf(tree: RbTree, c: Hole, t: Shape)
    requires tree.Valid() && At(Snapshot(tree.Repr), c, t, tree.sentinel, tree.root)
    ensures RootOf(t, tree.sentinel) == tree.sentinel <==> t.Leaf?
  {
    if t.Br? { PlaceOf(tree.Repr, c, t, tree.sentinel, tree.root); }
  }
}
