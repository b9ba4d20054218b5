/** Red-black trees as values: shapes, one-hole contexts, colours, black heights and in-order
    sequences. Nothing here mentions the heap; RbHeap.dfy ties a heap of nodes to these values. */
module RbShape {

  datatype Tree<T> = Leaf | Br(left: Tree<T>, item: T, red: bool, right: Tree<T>)

  /** The way from a subtree up to the root. The hole is the left child in InL, the right child in InR. */
  datatype Ctx<T> =
    | Top
    | InL(up: Ctx<T>, item: T, red: bool, sib: Tree<T>)
    | InR(up: Ctx<T>, item: T, red: bool, sib: Tree<T>)

  function Fill<T>(c: Ctx<T>, t: Tree<T>): Tree<T> {
    match c
    case Top => t
    case InL(up, item, red, sib) => Fill(up, Br(t, item, red, sib))
    case InR(up, item, red, sib) => Fill(up, Br(sib, item, red, t))
  }

  /** Puts context `inner` inside context `outer`. */
  function Append<T>(inner: Ctx<T>, outer: Ctx<T>): Ctx<T> {
    match inner
    case Top => outer
    case InL(up, item, red, sib) => InL(Append(up, outer), item, red, sib)
    case InR(up, item, red, sib) => InR(Append(up, outer), item, red, sib)
  }

  function Depth<T>(c: Ctx<T>): nat {
    if c.Top? then 0 else 1 + Depth(c.up)
  }

  function InOrder<T>(t: Tree<T>): seq<T> {
    if t.Leaf? then [] else InOrder(t.left) + [t.item] + InOrder(t.right)
  }

  /** What stands left of the hole in the in-order sequence. */
  function Before<T>(c: Ctx<T>): seq<T> {
    match c
    case Top => []
    case InL(up, _, _, _) => Before(up)
    case InR(up, item, _, sib) => Before(up) + InOrder(sib) + [item]
  }

  /** What stands right of the hole in the in-order sequence. */
  function After<T>(c: Ctx<T>): seq<T> {
    match c
    case Top => []
    case InL(up, item, _, sib) => [item] + InOrder(sib) + After(up)
    case InR(up, _, _, _) => After(up)
  }

  function IsRed<T>(t: Tree<T>): bool { t.Br? && t.red }

  function Blacken<T>(t: Tree<T>): Tree<T> {
    if t.Leaf? then t else t.(red := false)
  }

  /** Black nodes on the leftmost path; with Balanced, on every path. */
  function Bh<T>(t: Tree<T>): nat {
    if t.Leaf? then 0 else Bh(t.left) + (if t.red then 0 else 1)
  }

  predicate Balanced<T>(t: Tree<T>) {
    t.Br? ==> Bh(t.left) == Bh(t.right) && Balanced(t.left) && Balanced(t.right)
  }

  predicate NoRedRed<T>(t: Tree<T>) {
    t.Br? ==>
      && (t.red ==> !IsRed(t.left) && !IsRed(t.right))
      && NoRedRed(t.left) && NoRedRed(t.right)
  }

  predicate Sound<T>(t: Tree<T>) { Balanced(t) && NoRedRed(t) }

  /** The red-black invariant of a whole tree. */
  predicate RedBlack<T>(t: Tree<T>) { Sound(t) && !IsRed(t) }

  /** `c` accepts a subtree of black height `h`. */
  predicate CtxBalanced<T>(c: Ctx<T>, h: nat) {
    c.Top? ||
    (Balanced(c.sib) && Bh(c.sib) == h && CtxBalanced(c.up, h + (if c.red then 0 else 1)))
  }

  /** `c` accepts a subtree whose root has colour `hole`. */
  predicate CtxNoRedRed<T>(c: Ctx<T>, hole: bool) {
    if c.Top? then !hole else
    && NoRedRed(c.sib)
    && (c.red ==> !hole && !IsRed(c.sib))
    && CtxNoRedRed(c.up, c.red)
  }

  lemma {:induction false} FillInOrder<T>(c: Ctx<T>, t: Tree<T>)
    ensures InOrder(Fill(c, t)) == Before(c) + InOrder(t) + After(c)
  {
    match c
    case Top =>
      assert [] + InOrder(t) + [] == InOrder(t);
    case InL(up, item, red, sib) =>
      FillInOrder(up, Br(t, item, red, sib));
      Regrouped(Before(up), InOrder(t), [item], InOrder(sib), After(up));
    case InR(up, item, red, sib) =>
      FillInOrder(up, Br(sib, item, red, t));
      Regrouped(Before(up), InOrder(sib), [item], InOrder(t), After(up));
  }

  lemma Regrouped<T>(a: seq<T>, b: seq<T>, x: seq<T>, c: seq<T>, d: seq<T>)
    ensures a + (b + x + c) + d == a + b + (x + c + d)
    ensures a + (b + x + c) + d == (a + b + x) + c + d
  {
  }

  /** A context and a subtree make a red-black tree exactly when each accepts the other. */
  lemma {:induction false} FillRedBlack<T>(c: Ctx<T>, t: Tree<T>)
    ensures RedBlack(Fill(c, t)) <==> Sound(t) && CtxBalanced(c, Bh(t)) && CtxNoRedRed(c, IsRed(t))
  {
    match c
    case Top =>
    case InL(up, item, red, sib) => FillRedBlack(up, Br(t, item, red, sib));
    case InR(up, item, red, sib) => FillRedBlack(up, Br(sib, item, red, t));
  }

  lemma BlackenSound<T>(t: Tree<T>)
    requires Sound(t)
    ensures RedBlack(Blacken(t)) && InOrder(Blacken(t)) == InOrder(t)
  {
  }

  lemma CtxAcceptsBlack<T>(c: Ctx<T>, hole: bool)
    requires CtxNoRedRed(c, hole)
    ensures CtxNoRedRed(c, false)
  {
  }

  lemma {:induction false} SameInOrder<T>(c: Ctx<T>, t: Tree<T>, t': Tree<T>)
    requires InOrder(t) == InOrder(t')
    ensures InOrder(Fill(c, t)) == InOrder(Fill(c, t'))
  {
    FillInOrder(c, t);
    FillInOrder(c, t');
  }

  lemma {:induction false} AppendFill<T>(inner: Ctx<T>, outer: Ctx<T>, t: Tree<T>)
    ensures Fill(Append(inner, outer), t) == Fill(outer, Fill(inner, t))
  {
    match inner
    case Top =>
    case InL(up, item, red, sib) => AppendFill(up, outer, Br(t, item, red, sib));
    case InR(up, item, red, sib) => AppendFill(up, outer, Br(sib, item, red, t));
  }

  /** Colours and heights do not depend on which item stands at the junction of two contexts. */
  lemma {:induction false} AppendSwapItem<T>(inner: Ctx<T>, outer: Ctx<T>, outer': Ctx<T>, h: nat, hole: bool)
    requires outer.InR? && outer'.InR? && outer' == outer.(item := outer'.item)
    ensures CtxBalanced(Append(inner, outer), h) == CtxBalanced(Append(inner, outer'), h)
    ensures CtxNoRedRed(Append(inner, outer), hole) == CtxNoRedRed(Append(inner, outer'), hole)
  {
    if !inner.Top? {
      AppendSwapItem(inner.up, outer, outer', h + (if inner.red then 0 else 1), inner.red);
    }
  }

  function Pow2(n: nat): nat { if n == 0 then 1 else 2 * Pow2(n - 1) }

  function Height<T>(t: Tree<T>): nat {
    if t.Leaf? then 0 else 1 + (if Height(t.left) > Height(t.right) then Height(t.left) else Height(t.right))
  }

  lemma {:induction false} Pow2Monotone(a: nat, b: nat)
    requires a <= b
    ensures 1 <= Pow2(a) <= Pow2(b)
    decreases b
  {
    if b == 0 {
    } else if a < b {
      Pow2Monotone(a, b - 1);
    } else {
      Pow2Monotone(a - 1, b - 1);
    }
  }

  lemma {:induction false} BlackHeightBounds<T>(t: Tree<T>)
    requires Sound(t)
    ensures Pow2(Bh(t)) <= |InOrder(t)| + 1
    ensures Height(t) <= 2 * Bh(t) + (if IsRed(t) then 1 else 0)
  {
    if t.Br? {
      BlackHeightBounds(t.left);
      BlackHeightBounds(t.right);
    }
  }

  lemma {:induction false} Pow2Double(n: nat)
    ensures Pow2(2 * n) == Pow2(n) * Pow2(n)
  {
    if n > 0 {
      Pow2Double(n - 1);
      assert Pow2(2 * n) == 2 * (2 * Pow2(2 * (n - 1)));
    }
  }

  /** Height is at most 2*log2(n+1): every descent and climb is bounded by it. */
  lemma {:induction false} HeightBound<T>(t: Tree<T>)
    requires RedBlack(t)
    ensures Pow2(Height(t)) <= (|InOrder(t)| + 1) * (|InOrder(t)| + 1)
  {
    BlackHeightBounds(t);
    Pow2Monotone(Height(t), 2 * Bh(t));
    Pow2Double(Bh(t));
    var p, n := Pow2(Bh(t)), |InOrder(t)| + 1;
    MulMonotone(p, n, p);
    MulMonotone(p, n, n);
  }

  lemma {:induction false} DepthAppend<T>(inner: Ctx<T>, outer: Ctx<T>)
    ensures Depth(Append(inner, outer)) == Depth(inner) + Depth(outer)
  {
    if !inner.Top? { DepthAppend(inner.up, outer); }
  }

  /** A place in a tree is no deeper than the tree is high. */
  lemma {:induction false} DepthHeight<T>(c: Ctx<T>, t: Tree<T>)
    ensures Depth(c) + Height(t) <= Height(Fill(c, t))
  {
    match c
    case Top =>
    case InL(up, item, red, sib) => DepthHeight(up, Br(t, item, red, sib));
    case InR(up, item, red, sib) => DepthHeight(up, Br(sib, item, red, t));
  }

  /** A loop that takes no more turns than the tree is high takes at most 2*log2(n+1) of them. */
  lemma {:induction false} TurnsBound<T>(t: Tree<T>, turns: nat)
    requires RedBlack(t) && turns <= Height(t)
    ensures Pow2(turns) <= (|InOrder(t)| + 1) * (|InOrder(t)| + 1)
  {
    HeightBound(t);
    Pow2Monotone(turns, Height(t));
  }

  lemma {:induction false} MulMonotone(a: nat, b: nat, c: nat)
    requires a <= b
    ensures a * c <= b * c
  {
    if c > 0 {
      MulMonotone(a, b, c - 1);
      assert a * c == a * (c - 1) + a && b * c == b * (c - 1) + b;
    }
  }
}
