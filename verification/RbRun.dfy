/** Whole runs over a tree in memory: insertions and deletions one after the other, the walk in order, and
    the string index. */
module RbRun {
  import opened RbShape
  import opened RbHeap
  import opened RbOrder
  import opened RbSorted
  import opened RbRotate
  import opened RbInsert
  import opened RbDelete
  import opened RbSearch

  datatype Act = Add(node: Node, key: Key, str: seq<Byte>) | Remove(node: Node)

  /** What a member of the tree is to its users. */
  datatype Member = Member(node: Node, key: Key, str: seq<Byte>)

  ghost function Members(s: seq<Entry>): set<Member> {
    set e | e in s :: Member(e.node, e.key, e.str)
  }

  /** What one act makes of a plain set. */
  ghost function Done(all: set<Member>, act: Act): set<Member> {
    match act
    case Add(n, k, s) => all + {Member(n, k, s)}
    case Remove(n) => set m | m in all && m.node != n
  }

  ghost function AllDone(all: set<Member>, acts: seq<Act>): set<Member> {
    if acts == [] then all else Done(AllDone(all, acts[..|acts| - 1]), acts[|acts| - 1])
  }

  /** Only nodes that are not in the set are added, and only nodes that are in it are removed. */
  ghost predicate Legal(all: set<Member>, act: Act, sentinel: Node) {
    match act
    case Add(n, _, _) => n != sentinel && forall m <- all :: m.node != n
    case Remove(n) => exists m <- all :: m.node == n
  }

  ghost predicate AllLegal(all: set<Member>, acts: seq<Act>, sentinel: Node) {
    forall i :: 0 <= i < |acts| ==> Legal(AllDone(all, acts[..i]), acts[i], sentinel)
  }

  /** The tree owns its members and the sentinel, and nothing else. */
  ghost predicate Exact(tree: RbTree)
    reads tree
  {
    tree.Repr == {tree.sentinel} + set m | m in Members(InOrder(tree.shape)) :: m.node
  }

  lemma {:induction false} AddedMembers(before: seq<Entry>, k: nat, e: Entry)
    requires k <= |before|
    ensures Members(before[..k] + [e] + before[k..]) == Members(before) + {Member(e.node, e.key, e.str)}
  {
    var after := before[..k] + [e] + before[k..];
    assert before == before[..k] + before[k..];
    assert forall x :: x in after <==> x in before || x == e;
  }

  lemma {:induction false} RemovedMembers(before: seq<Entry>, after: seq<Entry>, k: nat)
    requires Removed(before, after, k)
    requires forall i, j :: 0 <= i < j < |before| ==> before[i].node != before[j].node
    ensures Members(after) == set m | m in Members(before) && m.node != before[k].node
  {
    forall i | 0 <= i < |after| ensures after[i] in before && after[i].node != before[k].node {
      assert after[i] == before[if i < k then i else i + 1];
    }
    forall i | 0 <= i < |before| && i != k ensures before[i] in after {
      assert after[if i < k then i else i - 1] == before[i];
    }
    assert forall x :: x in after <==> x in before && x.node != before[k].node;
  }

  lemma {:induction false} DistinctMembers(tree: RbTree)
    requires tree.Valid()
    ensures var s := InOrder(tree.shape); forall i, j :: 0 <= i < j < |s| ==> s[i].node != s[j].node
  {
    DistinctNodes(Snapshot(tree.Repr), tree.shape, tree.sentinel, 0.0, 1.0);
  }

  /** The caller fills the node and inserts it. */
  method AddOne(tree: RbTree, node: Node, key: Key, str: seq<Byte>, ghost w: Key)
    requires tree.Valid() && Exact(tree) && Legal(Members(InOrder(tree.shape)), Add(node, key, str), tree.sentinel)
    requires SortedIn(tree.insert, w, InOrder(tree.shape)) && InWindow(tree.insert, w, Item(key, str))
    modifies tree`root, tree`shape, tree`Repr, tree.Repr, node
    ensures tree.Valid() && Exact(tree) && SortedIn(tree.insert, w, InOrder(tree.shape))
    ensures Members(InOrder(tree.shape)) == Done(old(Members(InOrder(tree.shape))), Add(node, key, str))
    ensures tree.Repr == old(tree.Repr) + {node}
  {
    hide SortedIn, InWindow, Placed, InOrder;
    assert node !in tree.Repr;
    ghost var before := InOrder(tree.shape);
    node.key, node.str := key, str;
    ghost var k := Insert(tree, node, w);
    AddedMembers(before, k, EntryOf(node));
  }

  /** The caller deletes a member. */
  method RemoveOne(tree: RbTree, node: Node, ghost w: Key)
    requires tree.Valid() && Exact(tree) && Legal(Members(InOrder(tree.shape)), Remove(node), tree.sentinel)
    requires SortedIn(tree.insert, w, InOrder(tree.shape))
    modifies tree`root, tree`shape, tree`Repr, tree.Repr
    ensures tree.Valid() && Exact(tree) && SortedIn(tree.insert, w, InOrder(tree.shape))
    ensures Members(InOrder(tree.shape)) == Done(old(Members(InOrder(tree.shape))), Remove(node))
    ensures tree.Repr == old(tree.Repr) - {node}
  {
    hide SortedIn, Removed, InOrder;
    ghost var before := InOrder(tree.shape);
    EntriesMatch(tree);
    DistinctMembers(tree);
    assert EntryOf(node) in before;
    ghost var k := Delete(tree, node);
    RemovedSorted(tree.insert, w, before, InOrder(tree.shape), k);
    RemovedMembers(before, InOrder(tree.shape), k);
  }

  /** One act of a run. */
  method Perform(tree: RbTree, act: Act, ghost w: Key)
    requires tree.Valid() && Exact(tree) && Legal(Members(InOrder(tree.shape)), act, tree.sentinel)
    requires SortedIn(tree.insert, w, InOrder(tree.shape))
    requires (act.Add? ==> InWindow(tree.insert, w, Item(act.key, act.str)))
    modifies tree`root, tree`shape, tree`Repr, tree.Repr, act.node
    ensures tree.Valid() && Exact(tree) && SortedIn(tree.insert, w, InOrder(tree.shape))
    ensures Members(InOrder(tree.shape)) == Done(old(Members(InOrder(tree.shape))), act)
    ensures tree.Repr <= old(tree.Repr) + {act.node}
  {
    hide SortedIn, InWindow, InOrder, Members, Done, Legal;
    match act {
      case Add(node, key, str) => AddOne(tree, node, key, str, w);
      case Remove(node) => RemoveOne(tree, node, w);
    }
  }

  ghost function NodesOf(acts: seq<Act>): set<Node> { set a | a in acts :: a.node }

  /** All members lie in the window that starts at `w`. */
  ghost predicate MembersIn(o: Order, w: Key, all: set<Member>) {
    forall m <- all :: InWindow(o, w, Item(m.key, m.str))
  }

  /** Window `ws[i]` holds what is live before act `i` and what that act adds. Only timer trees care. */
  ghost predicate Windows(o: Order, ws: seq<Key>, all: set<Member>, acts: seq<Act>) {
    && |ws| == |acts| + 1
    && (forall i :: 0 <= i <= |acts| ==> MembersIn(o, ws[i], AllDone(all, acts[..i])))
    && (forall i :: 0 <= i < |acts| && acts[i].Add? ==> InWindow(o, ws[i], Item(acts[i].key, acts[i].str)))
  }

  lemma {:induction false} MembersRewindow(o: Order, w: Key, w': Key, s: seq<Entry>)
    requires SortedIn(o, w, s) && MembersIn(o, w', Members(s))
    ensures SortedIn(o, w', s)
  {
    forall e | e in s ensures InWindow(o, w', ItemOf(e)) {
      assert Member(e.node, e.key, e.str) in Members(s);
    }
    Rewindow(o, w, w', s);
  }

  /** In a timer tree the distances from the window's start do not decrease along the sequence. */
  ghost predicate ByOffset(w: Key, s: seq<Entry>) {
    forall i, j :: 0 <= i < j < |s| ==> Minus(s[i].key, w) <= Minus(s[j].key, w)
  }

  /** Any legal run leaves a red-black tree that is sorted and whose members are those of the plain set. The window
      in which the keys of a timer tree lie may move on from act to act. */
  method Run(tree: RbTree, acts: seq<Act>, ghost ws: seq<Key>)
    requires tree.Valid() && Exact(tree)
    requires AllLegal(Members(InOrder(tree.shape)), acts, tree.sentinel)
    requires Windows(tree.insert, ws, Members(InOrder(tree.shape)), acts)
    requires SortedIn(tree.insert, ws[0], InOrder(tree.shape))
    modifies tree`root, tree`shape, tree`Repr, tree.Repr, NodesOf(acts)
    ensures tree.Valid() && Exact(tree) && SortedIn(tree.insert, ws[|acts|], InOrder(tree.shape))
    ensures Members(InOrder(tree.shape)) == AllDone(old(Members(InOrder(tree.shape))), acts)
    ensures tree.insert.ByTimer? ==> ByOffset(ws[|acts|], InOrder(tree.shape))
  {
    hide SortedIn, InWindow, InOrder, Legal, Done, Members, Exact, MembersIn, ByOffset;
    ghost var all := Members(InOrder(tree.shape));
    for n := 0 to |acts|
      invariant tree.Valid() && Exact(tree) && SortedIn(tree.insert, ws[n], InOrder(tree.shape))
      invariant Members(InOrder(tree.shape)) == AllDone(all, acts[..n])
      invariant tree.Repr <= old(tree.Repr) + NodesOf(acts) && tree.sentinel == old(tree.sentinel)
      invariant tree.insert == old(tree.insert)
    {
      assert acts[n] in acts && Legal(AllDone(all, acts[..n]), acts[n], tree.sentinel);
      assert acts[..n + 1][..n] == acts[..n];
      Perform(tree, acts[n], ws[n]);
      MembersRewindow(tree.insert, ws[n], ws[n + 1], InOrder(tree.shape));
    }
    assert acts[..|acts|] == acts;
    if tree.insert.ByTimer? { TimersByOffset(ws[|acts|], InOrder(tree.shape)); }
  }

  lemma TimersByOffset(w: Key, s: seq<Entry>)
    requires SortedIn(ByTimer, w, s)
    ensures ByOffset(w, s)
  {
    SortedByOffset(w, s);
  }

  /** The string index agrees with a plain set: after any legal run from an empty tree, the lookup finds a
      node with the given hash and bytes if and only if the set holds one. */
  method RunAndLookup(tree: RbTree, acts: seq<Act>, val: seq<Byte>, hash: Key) returns (r: Node?)
    requires tree.Valid() && Exact(tree) && tree.insert == ByString && tree.shape == Leaf
    requires AllLegal({}, acts, tree.sentinel)
    modifies tree`root, tree`shape, tree`Repr, tree.Repr, NodesOf(acts)
    ensures tree.Valid() && Exact(tree)
    ensures r != null ==> Member(r, hash, val) in AllDone({}, acts)
    ensures r == null ==> forall m <- AllDone({}, acts) :: !(m.key == hash && m.str == val)
  {
    assert InOrder(tree.shape) == [] && Members([]) == {};
    ghost var ws := seq(|acts| + 1, _ => 0 as Key);
    Run(tree, acts, ws);
    EntriesMatch(tree);
    ghost var turns, c, t;
    r, turns, c, t := StrLookup(tree, val, hash);
  }

  /** From the minimum on, ngx_rbtree_next visits every node once, in order, and then returns NULL. */
  method Walk(tree: RbTree) returns (visited: seq<Node>)
    requires tree.Valid()
    ensures |visited| == |InOrder(tree.shape)|
    ensures forall i :: 0 <= i < |visited| ==> visited[i] == InOrder(tree.shape)[i].node
  {
    EmptyOrNot(tree);
    visited := [];
    if tree.root == tree.sentinel {
      return;
    }
    hide At, Leftmost, InOrder, RedBlack;
    ghost var s := InOrder(tree.shape);
    ghost var k, u;
    var node: Node?;
    PlaceOf(tree.Repr, Top, tree.shape, tree.sentinel, tree.root);
    ghost var turns;
    node, k, u, turns := Min(tree, tree.root, Top, tree.shape);
    EntriesMatch(tree);
    while node != null
      invariant |visited| <= |s| && (node == null ==> |visited| == |s|)
      invariant node != null ==> |visited| < |s| && node == s[|visited|].node
      invariant forall i :: 0 <= i < |visited| ==> visited[i] == s[i].node
      decreases |s| - |visited|
    {
      ghost var i := |visited|;
      assert s[i] in s && s[i].node == node;
      visited := visited + [node];
      ghost var c, t, d;
      node, turns, c, t, d, u := Next(tree, node);
      if i + 1 < |s| {
        ghost var following: Node := s[i + 1].node;
        assert node == following;
      }
    }
  }
}
