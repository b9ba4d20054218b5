/** ngx_queue.c and ngx_queue.h: intrusive circular doubly linked lists. */
module Queue {

  class Link {
    var prev: Link
    var next: Link

    /** ngx_queue_init */
    constructor ()
      ensures Ring([this])
    {
      prev, next := this, this;
    }
  }

  /** The links of `r` form a circle in this order; `r[0]` is the sentinel of the queue that holds the rest. */
  ghost predicate Ring(r: seq<Link>)
    reads r
  {
    && r != [] && Distinct(r)
    && (forall i :: 0 <= i < |r| - 1 ==> r[i].next == r[i + 1])
    && (forall i :: 0 < i < |r| ==> r[i].prev == r[i - 1])
    && r[|r| - 1].next == r[0] && r[0].prev == r[|r| - 1]
  }

  function NextOf(r: seq<Link>, k: nat): Link
    requires k < |r|
  {
    if k + 1 < |r| then r[k + 1] else r[0]
  }

  ghost predicate Distinct(r: seq<Link>) {
    forall i, j :: 0 <= i < j < |r| ==> r[i] != r[j]
  }

  ghost function Inserted(r: seq<Link>, k: nat, x: Link): seq<Link>
    requires k <= |r|
  {
    r[..k] + [x] + r[k..]
  }

  ghost function Removed(r: seq<Link>, k: nat): seq<Link>
    requires k < |r|
  {
    r[..k] + r[k + 1..]
  }

  lemma InsertedAt(r: seq<Link>, k: nat, x: Link)
    requires k <= |r| && Distinct(r) && x !in r
    ensures Distinct(Inserted(r, k, x)) && |Inserted(r, k, x)| == |r| + 1
    ensures forall i :: 0 <= i <= |r| ==> Inserted(r, k, x)[i] == if i < k then r[i] else if i == k then x else r[i - 1]
  {
  }

  lemma RemovedAt(r: seq<Link>, k: nat)
    requires k < |r| && Distinct(r)
    ensures Distinct(Removed(r, k)) && |Removed(r, k)| == |r| - 1 && r[k] !in Removed(r, k)
    ensures forall i :: 0 <= i < |r| - 1 ==> Removed(r, k)[i] == if i < k then r[i] else r[i + 1]
  {
  }

  lemma JoinedAt(r: seq<Link>, s: seq<Link>)
    requires s != [] && Distinct(r + s)
    ensures Distinct(r + s[1..]) && |r + s[1..]| == |r| + |s| - 1
    ensures forall i :: 0 <= i < |r| + |s| - 1 ==> (r + s[1..])[i] == if i < |r| then r[i] else s[i - |r| + 1]
    ensures forall i, j :: 0 <= i < |r| && 0 <= j < |s| ==> r[i] != s[j]
  {
    assert forall i :: 0 <= i < |r| ==> (r + s)[i] == r[i];
    assert forall j :: 0 <= j < |s| ==> (r + s)[|r| + j] == s[j];
    assert forall i :: |r| <= i < |r| + |s| - 1 ==> (r + s[1..])[i] == (r + s)[i + 1];
  }

  /** ngx_queue_empty */
  predicate Empty(h: Link)
    reads h
  {
    h == h.prev
  }

  lemma EmptyIffAlone(r: seq<Link>)
    requires Ring(r)
    ensures Empty(r[0]) <==> |r| == 1
  {
  }

  lemma RingAt(r: seq<Link>, k: nat)
    requires Ring(r) && k < |r|
    ensures Distinct(r) && r[k].next == NextOf(r, k) && (k > 0 ==> r[k].prev == r[k - 1]) && (r[k] == r[0] ==> k == 0)
  {
  }

  /** ngx_queue_insert_head and ngx_queue_insert_after */
  method InsertAfter(h: Link, x: Link, ghost r: seq<Link>, ghost k: nat)
    requires Ring(r) && k < |r| && r[k] == h && x !in r
    modifies h, x, h.next
    ensures Ring(Inserted(r, k + 1, x))
  {
    InsertedAt(r, k + 1, x);
    assert h.next == NextOf(r, k);
    x.next := h.next;
    x.next.prev := x;
    x.prev := h;
    h.next := x;
  }

  /** ngx_queue_insert_tail */
  method InsertTail(h: Link, x: Link, ghost r: seq<Link>)
    requires Ring(r) && r[0] == h && x !in r
    modifies h, x, h.prev
    ensures Ring(r + [x])
  {
    x.prev := h.prev;
    x.prev.next := x;
    x.next := h;
    h.prev := x;
  }

  /** ngx_queue_remove */
  method Remove(x: Link, ghost r: seq<Link>, ghost k: nat)
    requires Ring(r) && 0 < k < |r| && r[k] == x
    modifies x.prev, x.next
    ensures Ring(Removed(r, k)) && x.prev == r[k - 1] && x.next == NextOf(r, k)
  {
    RemovedAt(r, k);
    assert x.next == NextOf(r, k) && x.prev == r[k - 1];
    x.next.prev := x.prev;
    x.prev.next := x.next;
  }

  /** ngx_queue_split: the queue keeps what comes before `q`, and `n` heads the rest. */
  method Split(h: Link, q: Link, n: Link, ghost r: seq<Link>, ghost k: nat)
    requires Ring(r) && r[0] == h && 0 < k < |r| && r[k] == q && n !in r
    modifies h, q, n, h.prev, q.prev
    ensures Ring(r[..k]) && Ring([n] + r[k..])
  {
    n.prev := h.prev;
    n.prev.next := n;
    n.next := q;
    h.prev := q.prev;
    h.prev.next := h;
    q.prev := n;
  }

  /** ngx_queue_add: what `n` heads goes to the end of the queue of `h`. */
  method Add(h: Link, n: Link, ghost r: seq<Link>, ghost s: seq<Link>)
    requires Ring(r) && r[0] == h && Ring(s) && s[0] == n && Distinct(r + s)
    modifies h, n, h.prev, n.prev, n.next
    ensures Ring(r + s[1..])
  {
    JoinedAt(r, s);
    assert n.next == NextOf(s, 0) && h.prev == r[|r| - 1];
    h.prev.next := n.next;
    n.next.prev := h.prev;
    h.prev := n.prev;
    h.prev.next := h;
  }

  /** ngx_queue_middle: the element at index n / 2, or the sentinel of an empty queue. */
  method Middle(queue: Link, ghost r: seq<Link>) returns (middle: Link)
    requires Ring(r) && r[0] == queue
    ensures middle == if |r| == 1 then queue else r[1 + (|r| - 1) / 2]
  {
    assert |r| > 1 ==> r[0].next == r[1];
    middle := queue.next;
    if middle == queue.prev {
      return;
    }
    var next := queue.next;
    ghost var t := 0;
    while true
      invariant 1 + 2 * t < |r| - 1 && middle == r[1 + t] && next == r[1 + 2 * t]
      decreases |r| - t
    {
      assert r[1 + t].next == r[2 + t] && r[1 + 2 * t].next == r[2 + 2 * t];
      middle := middle.next;
      next := next.next;
      if next == queue.prev {
        return;
      }
      assert r[2 + 2 * t].next == r[3 + 2 * t];
      next := next.next;
      if next == queue.prev {
        return;
      }
      t := t + 1;
    }
  }

  // ----- sorting

  /** Where ngx_queue_sort puts `x`: scanning from the back, after the first element not greater than it. */
  function Insert(cmp: (Link, Link) -> int, s: seq<Link>, x: Link): seq<Link> {
    if s == [] then [x]
    else if cmp(s[|s| - 1], x) <= 0 then s + [x]
    else Insert(cmp, s[..|s| - 1], x) + [s[|s| - 1]]
  }

  function Sorted(cmp: (Link, Link) -> int, s: seq<Link>): seq<Link> {
    if s == [] then [] else Insert(cmp, Sorted(cmp, s[..|s| - 1]), s[|s| - 1])
  }

  lemma {:induction false} InsertElements(cmp: (Link, Link) -> int, s: seq<Link>, x: Link)
    ensures multiset(Insert(cmp, s, x)) == multiset(s) + multiset{x} && |Insert(cmp, s, x)| == |s| + 1
  {
    if s != [] {
      InsertElements(cmp, s[..|s| - 1], x);
      assert s == s[..|s| - 1] + [s[|s| - 1]];
    }
  }

  /** Sorting keeps the same elements, whatever the comparison. */
  lemma {:induction false} SortPermutes(cmp: (Link, Link) -> int, s: seq<Link>)
    ensures multiset(Sorted(cmp, s)) == multiset(s) && |Sorted(cmp, s)| == |s|
  {
    hide Insert;
    if s != [] {
      var last, front := s[|s| - 1], s[..|s| - 1];
      SortPermutes(cmp, front);
      InsertElements(cmp, Sorted(cmp, front), last);
      assert s == front + [last];
      assert multiset(front + [last]) == multiset(front) + multiset{last};
    }
  }

  /** `cmp` is a total preorder on the elements of `s`. */
  ghost predicate Preorder(cmp: (Link, Link) -> int, s: set<Link>) {
    && (forall a, b :: a in s && b in s ==> cmp(a, b) <= 0 || cmp(b, a) <= 0)
    && (forall a, b, c :: a in s && b in s && c in s && cmp(a, b) <= 0 && cmp(b, c) <= 0 ==> cmp(a, c) <= 0)
  }

  lemma Total(cmp: (Link, Link) -> int, all: set<Link>, a: Link, b: Link)
    requires Preorder(cmp, all) && a in all && b in all
    ensures cmp(a, b) <= 0 || cmp(b, a) <= 0
  {
  }

  lemma Transitive(cmp: (Link, Link) -> int, all: set<Link>, a: Link, b: Link, c: Link)
    requires Preorder(cmp, all) && a in all && b in all && c in all && cmp(a, b) <= 0 && cmp(b, c) <= 0
    ensures cmp(a, c) <= 0
  {
  }

  ghost predicate Ascending(cmp: (Link, Link) -> int, s: seq<Link>) {
    forall i, j :: 0 <= i < j < |s| ==> cmp(s[i], s[j]) <= 0
  }

  ghost predicate Among(s: seq<Link>, all: set<Link>) {
    forall k :: 0 <= k < |s| ==> s[k] in all
  }

  ghost predicate Below(cmp: (Link, Link) -> int, s: seq<Link>, last: Link) {
    forall k :: 0 <= k < |s| ==> cmp(s[k], last) <= 0
  }

  lemma {:induction false} InsertAmong(cmp: (Link, Link) -> int, s: seq<Link>, x: Link, all: set<Link>)
    requires Among(s, all) && x in all
    ensures Among(Insert(cmp, s, x), all)
  {
    if s != [] && cmp(s[|s| - 1], x) > 0 {
      InsertAmong(cmp, s[..|s| - 1], x, all);
    }
  }

  lemma {:induction false} InsertBelow(cmp: (Link, Link) -> int, s: seq<Link>, x: Link, last: Link)
    requires Below(cmp, s, last) && cmp(x, last) <= 0
    ensures Below(cmp, Insert(cmp, s, x), last)
  {
    if s != [] && cmp(s[|s| - 1], x) > 0 {
      InsertBelow(cmp, s[..|s| - 1], x, last);
    }
  }

  lemma {:induction false} InsertAscending(cmp: (Link, Link) -> int, s: seq<Link>, x: Link, all: set<Link>)
    requires Preorder(cmp, all) && x in all && Among(s, all) && Ascending(cmp, s)
    ensures Ascending(cmp, Insert(cmp, s, x))
  {
    hide Preorder;
    if s != [] {
      var last, front := s[|s| - 1], s[..|s| - 1];
      if cmp(last, x) <= 0 {
        forall k | 0 <= k < |s| ensures cmp(s[k], x) <= 0 {
          if k < |s| - 1 { Transitive(cmp, all, s[k], last, x); }
        }
      } else {
        InsertAscending(cmp, front, x, all);
        Total(cmp, all, x, last);
        InsertBelow(cmp, front, x, last);
      }
    }
  }

  lemma {:induction false} SortAmong(cmp: (Link, Link) -> int, s: seq<Link>, all: set<Link>)
    requires Among(s, all)
    ensures Among(Sorted(cmp, s), all)
  {
    if s != [] {
      SortAmong(cmp, s[..|s| - 1], all);
      InsertAmong(cmp, Sorted(cmp, s[..|s| - 1]), s[|s| - 1], all);
    }
  }

  /** For a total preorder the result is in ascending order. */
  lemma {:induction false} SortAscending(cmp: (Link, Link) -> int, s: seq<Link>, all: set<Link>)
    requires Preorder(cmp, all) && Among(s, all)
    ensures Ascending(cmp, Sorted(cmp, s))
  {
    hide Preorder;
    if s != [] {
      SortAscending(cmp, s[..|s| - 1], all);
      SortAmong(cmp, s[..|s| - 1], all);
      InsertAscending(cmp, Sorted(cmp, s[..|s| - 1]), s[|s| - 1], all);
    }
  }

  /** The elements of `s` that `cmp` holds equal to `e`, in order. */
  ghost function EqualTo(cmp: (Link, Link) -> int, s: seq<Link>, e: Link): seq<Link> {
    if s == [] then []
    else
      var last := s[|s| - 1];
      EqualTo(cmp, s[..|s| - 1], e) + if cmp(last, e) <= 0 && cmp(e, last) <= 0 then [last] else []
  }

  lemma EqualToLast(cmp: (Link, Link) -> int, s: seq<Link>, x: Link, e: Link)
    ensures EqualTo(cmp, s + [x], e) == EqualTo(cmp, s, e) + if cmp(x, e) <= 0 && cmp(e, x) <= 0 then [x] else []
  {
    assert (s + [x])[..|s|] == s;
  }

  lemma {:induction false} InsertStable(cmp: (Link, Link) -> int, s: seq<Link>, x: Link, e: Link, all: set<Link>)
    requires Preorder(cmp, all) && x in all && e in all && Among(s, all)
    ensures EqualTo(cmp, Insert(cmp, s, x), e) == EqualTo(cmp, s + [x], e)
  {
    hide Preorder;
    if s != [] && cmp(s[|s| - 1], x) > 0 {
      var last, front := s[|s| - 1], s[..|s| - 1];
      assert s == front + [last];
      InsertStable(cmp, front, x, e, all);
      if cmp(last, e) <= 0 && cmp(e, x) <= 0 { Transitive(cmp, all, last, e, x); }
      EqualToLast(cmp, Insert(cmp, front, x), last, e);
      EqualToLast(cmp, front, x, e);
      EqualToLast(cmp, front, last, e);
      EqualToLast(cmp, s, x, e);
    }
  }

  /** Elements that compare equal keep their order. */
  lemma {:induction false} SortStable(cmp: (Link, Link) -> int, s: seq<Link>, e: Link, all: set<Link>)
    requires Preorder(cmp, all) && e in all && Among(s, all)
    ensures EqualTo(cmp, Sorted(cmp, s), e) == EqualTo(cmp, s, e)
  {
    hide Preorder, Ascending, Insert, EqualTo;
    if s != [] {
      var last, front := s[|s| - 1], s[..|s| - 1];
      assert s == front + [last];
      SortStable(cmp, front, e, all);
      SortAmong(cmp, front, all);
      EqualToLast(cmp, Sorted(cmp, front), last, e);
      EqualToLast(cmp, front, last, e);
      InsertStable(cmp, Sorted(cmp, front), last, e, all);
    }
  }

  /** Scanning past elements greater than `x` does not change where it goes. */
  lemma {:induction false} InsertSplits(cmp: (Link, Link) -> int, s: seq<Link>, x: Link, j: nat)
    requires j <= |s| && forall i :: j <= i < |s| ==> cmp(s[i], x) > 0
    ensures Insert(cmp, s, x) == Insert(cmp, s[..j], x) + s[j..]
  {
    if j < |s| {
      var front := s[..|s| - 1];
      InsertSplits(cmp, front, x, j);
      assert front[..j] == s[..j] && s[j..] == front[j..] + [s[|s| - 1]];
    } else {
      assert s[..j] == s && s[j..] == [];
    }
  }

  /** The order of the ring once the first `i` elements are sorted. */
  ghost function PartlySorted(cmp: (Link, Link) -> int, r: seq<Link>, i: nat): seq<Link>
    requires 1 <= i <= |r|
  {
    [r[0]] + Sorted(cmp, r[1..i]) + r[i..]
  }


  lemma {:induction false} PartlySortedAt(cmp: (Link, Link) -> int, r: seq<Link>, i: nat)
    requires 1 <= i <= |r|
    ensures |PartlySorted(cmp, r, i)| == |r| && PartlySorted(cmp, r, i)[0] == r[0] && |Sorted(cmp, r[1..i])| == i - 1
    ensures forall k :: 1 <= k < i ==> PartlySorted(cmp, r, i)[k] == Sorted(cmp, r[1..i])[k - 1]
    ensures forall k :: i <= k < |r| ==> PartlySorted(cmp, r, i)[k] == r[k]
    ensures Among(PartlySorted(cmp, r, i), set x | x in r)
  {
    hide Sorted;
    SortPermutes(cmp, r[1..i]);
    SortAmong(cmp, r[1..i], set x | x in r);
  }

  /** Element `i` goes where the scan of the sorted part stops. */
  lemma {:induction false} PlacedAt(cmp: (Link, Link) -> int, r: seq<Link>, i: nat, j: nat)
    requires 1 <= i < |r| && 0 <= j <= i - 1
    requires var s := Sorted(cmp, r[1..i]);
      |s| == i - 1 && (forall m :: j <= m < |s| ==> cmp(s[m], r[i]) > 0) && (j == 0 || cmp(s[j - 1], r[i]) <= 0)
    ensures var cur := PartlySorted(cmp, r, i);
      |cur| == |r| && Inserted(Removed(cur, i), j + 1, r[i]) == PartlySorted(cmp, r, i + 1)
  {
    hide Inserted, Removed, Insert;
    var s := Sorted(cmp, r[1..i]);
    assert r[1..i + 1][..i] == r[1..i + 1] && r[1..i + 1][..i - 1] == r[1..i];
    InsertWhere(cmp, s, r[i], j);
    Shuffled(r, s, i, j);
  }

  lemma {:induction false} InsertWhere(cmp: (Link, Link) -> int, s: seq<Link>, x: Link, j: nat)
    requires j <= |s| && (forall m :: j <= m < |s| ==> cmp(s[m], x) > 0) && (j == 0 || cmp(s[j - 1], x) <= 0)
    ensures Insert(cmp, s, x) == Inserted(s, j, x)
  {
    InsertSplits(cmp, s, x, j);
    assert Insert(cmp, s[..j], x) == s[..j] + [x];
  }

  lemma {:induction false} Shuffled(r: seq<Link>, s: seq<Link>, i: nat, j: nat)
    requires 1 <= i < |r| && |s| == i - 1 && j <= i - 1
    ensures var cur := [r[0]] + s + r[i..];
      |cur| == |r| && Inserted(Removed(cur, i), j + 1, r[i]) == [r[0]] + Inserted(s, j, r[i]) + r[i + 1..]
  {
    var ring := Removed([r[0]] + s + r[i..], i);
    assert ring == [r[0]] + s + r[i + 1..];
    assert ring[..j + 1] == [r[0]] + s[..j] && ring[j + 1..] == s[j..] + r[i + 1..];
  }

  /** One round of the outer loop: take out element `i`, scan backwards, put it in. */
  method Place(queue: Link, cmp: (Link, Link) -> int, q: Link, ghost r: seq<Link>, ghost i: nat) returns (next: Link)
    requires 2 <= i < |r| && r[0] == queue && |PartlySorted(cmp, r, i)| == |r|
    requires Ring(PartlySorted(cmp, r, i)) && q == r[i] == PartlySorted(cmp, r, i)[i]
    modifies r
    ensures Ring(PartlySorted(cmp, r, i + 1)) && |PartlySorted(cmp, r, i + 1)| == |r|
    ensures next == NextOf(r, i)
  {
    hide Sorted, Insert, Inserted, PartlySorted, Ring;
    PartlySortedAt(cmp, r, i);
    PartlySortedAt(cmp, r, i + 1);
    ghost var cur, s := PartlySorted(cmp, r, i), Sorted(cmp, r[1..i]);
    ghost var ring := Removed(cur, i);
    RingAt(cur, i);
    RemovedAt(cur, i);
    var prev := q.prev;
    next := q.next;
    Remove(q, cur, i);
    ghost var j := i - 1;
    assert ring[0] == queue;
    while true
      invariant 1 <= j <= i - 1 && prev == ring[j] && Ring(ring)
      invariant forall m :: j <= m < |s| ==> cmp(s[m], q) > 0
      decreases j
    {
      assert prev == s[j - 1];
      if cmp(prev, q) <= 0 {
        break;
      }
      RingAt(ring, j);
      prev := prev.prev;
      j := j - 1;
      RingAt(ring, j);
      if prev == queue {
        break;
      }
    }
    PlacedAt(cmp, r, i, j);
    RingAt(ring, j);
    InsertAfter(prev, q, ring, j);
  }

  /** ngx_queue_sort: an insertion sort that relinks the nodes. */
  method Sort(queue: Link, cmp: (Link, Link) -> int, ghost r: seq<Link>)
    requires Ring(r) && r[0] == queue
    modifies r
    ensures Ring([queue] + Sorted(cmp, r[1..]))
  {
    hide Sorted, Insert, PartlySorted, Distinct;
    SortEnds(cmp, r);
    assert |r| > 1 ==> r[0].next == r[1] && r[1].next == NextOf(r, 1);
    var q := queue.next;
    if q == queue.prev {
      AloneOrOne(r);
      return;
    }
    q := q.next;
    ghost var i := 2;
    while q != queue
      invariant 2 <= i <= |r| && Ring(PartlySorted(cmp, r, i))
      invariant q == NextOf(r, i - 1)
      decreases |r| - i
    {
      PartlySortedAt(cmp, r, i);
      q := Place(queue, cmp, q, r, i);
      i := i + 1;
    }
    AtEnd(r, i);
  }

  lemma AloneOrOne(r: seq<Link>)
    requires Ring(r) && r[0].next == r[0].prev
    ensures |r| <= 2
  {
    assert |r| > 1 ==> r[0].next == r[1];
  }

  lemma AtEnd(r: seq<Link>, i: nat)
    requires r != [] && Distinct(r) && 1 <= i <= |r| && NextOf(r, i - 1) == r[0]
    ensures i == |r|
  {
  }

  lemma SortEnds(cmp: (Link, Link) -> int, r: seq<Link>)
    requires r != []
    ensures |r| <= 2 ==> [r[0]] + Sorted(cmp, r[1..]) == r
    ensures |r| >= 2 ==> PartlySorted(cmp, r, 2) == r
    ensures PartlySorted(cmp, r, |r|) == [r[0]] + Sorted(cmp, r[1..])
  {
    assert r[1..|r|] == r[1..] && r[|r|..] == [];
    if |r| >= 2 {
      assert r[1..2] == [r[1]] && [r[1]][..0] == [];
      assert Sorted(cmp, [r[1]]) == [r[1]];
    }
  }
}
