/** The three comparisons of the insert functions, and the place in the in-order sequence to
    which a descent guided by one of them leads. */
module RbOrder {
  import opened RbShape
  import opened RbHeap

  /** ngx_rbtree_insert_value, ngx_rbtree_insert_timer_value, ngx_str_rbtree_insert_value. */
  datatype Order = ByKey | ByTimer | ByString

  datatype Item = Item(key: Key, str: seq<Byte>)

  function ItemOf(e: Entry): Item { Item(e.key, e.str) }

  /** memcmp(a, b, |a|) < 0 */
  predicate MemLess(a: seq<Byte>, b: seq<Byte>)
    requires |a| == |b|
  {
    a != [] && (a[0] < b[0] || (a[0] == b[0] && MemLess(a[1..], b[1..])))
  }

  /** 64-bit unsigned subtraction. */
  function Minus(a: Key, b: Key): Key { (a - b) % 0x1_0000_0000_0000_0000 }

  /** Whether the descent with item `a` goes left at a node with item `b`. */
  predicate Less(o: Order, a: Item, b: Item) {
    match o
    case ByKey => a.key < b.key
    case ByTimer => Minus(a.key, b.key) >= 0x8000_0000_0000_0000  // negative as a signed number
    case ByString =>
      if a.key != b.key then a.key < b.key
      else if |a.str| != |b.str| then |a.str| < |b.str|
      else MemLess(a.str, b.str)
  }

  /** How many entries of `t` stand before the place the descent of `x` ends in. */
  ghost function Slot(o: Order, t: Shape, x: Item): nat {
    if t.Leaf? then 0
    else if Less(o, x, ItemOf(t.item)) then Slot(o, t.left, x)
    else |InOrder(t.left)| + 1 + Slot(o, t.right, x)
  }
}
