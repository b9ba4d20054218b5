/** The search order: what the comparisons guarantee, where an insertion lands in a sorted sequence,
    and what any run of insertions and deletions keeps. */
module RbSorted {
  import opened RbShape
  import opened RbHeap
  import opened RbOrder

  /** Timer keys count from the start `w` of a circular window of half the key space. */
  predicate InWindow(o: Order, w: Key, x: Item) {
    o.ByTimer? ==> Minus(x.key, w) < 0x8000_0000_0000_0000
  }

  ghost predicate SortedIn(o: Order, w: Key, s: seq<Entry>) {
    && (forall e <- s :: InWindow(o, w, ItemOf(e)))
    && forall i, j :: 0 <= i < j < |s| ==> !Less(o, ItemOf(s[j]), ItemOf(s[i]))
  }

  /** `e` goes in after everything not greater and before everything greater. */
  ghost predicate Placed(o: Order, before: seq<Entry>, e: Entry, after: seq<Entry>, k: nat) {
    && k <= |before| && after == before[..k] + [e] + before[k..]
    && (forall i :: 0 <= i < k ==> !Less(o, ItemOf(e), ItemOf(before[i])))
    && (forall i :: k <= i < |before| ==> Less(o, ItemOf(e), ItemOf(before[i])))
  }

  /** Inside one window the wrapping comparison is the comparison of the offsets. */
  lemma TimerOffsets(w: Key, a: Key, b: Key)
    requires Minus(a, w) < 0x8000_0000_0000_0000 && Minus(b, w) < 0x8000_0000_0000_0000
    ensures Less(ByTimer, Item(a, []), Item(b, [])) <==> Minus(a, w) < Minus(b, w)
  {
    var x: int, y: int := Minus(a, w), Minus(b, w);
    var qa, qb := (a - w) / 0x1_0000_0000_0000_0000, (b - w) / 0x1_0000_0000_0000_0000;
    if x < y {
      Residue(a - b, qa - qb - 1, x - y + 0x1_0000_0000_0000_0000);
    } else {
      Residue(a - b, qa - qb, x - y);
    }
  }

  lemma Residue(n: int, q: int, r: int)
    requires 0 <= r < 0x1_0000_0000_0000_0000 && n == q * 0x1_0000_0000_0000_0000 + r
    ensures n % 0x1_0000_0000_0000_0000 == r
  {
  }

  lemma {:induction false} MemTotal(a: seq<Byte>, b: seq<Byte>)
    requires |a| == |b|
    ensures !(MemLess(a, b) && MemLess(b, a))
    ensures MemLess(a, b) || MemLess(b, a) || a == b
  {
    if a != [] {
      MemTotal(a[1..], b[1..]);
      assert a == [a[0]] + a[1..] && b == [b[0]] + b[1..];
    }
  }

  lemma {:induction false} MemTransitive(a: seq<Byte>, b: seq<Byte>, c: seq<Byte>)
    requires |a| == |b| == |c| && MemLess(a, b) && MemLess(b, c)
    ensures MemLess(a, c)
  {
    if a[0] == b[0] == c[0] {
      MemTransitive(a[1..], b[1..], c[1..]);
    }
  }

  /** "Not less" is transitive, and nothing is less in both directions. */
  lemma {:induction false} LessIsWeakOrder(o: Order, w: Key, x: Item, y: Item, z: Item)
    requires InWindow(o, w, x) && InWindow(o, w, y) && InWindow(o, w, z)
    ensures Less(o, x, y) ==> !Less(o, y, x)
    ensures !Less(o, x, y) && !Less(o, y, z) ==> !Less(o, x, z)
  {
    match o
    case ByKey =>
    case ByTimer =>
      TimerOffsets(w, x.key, y.key);
      TimerOffsets(w, y.key, x.key);
      TimerOffsets(w, y.key, z.key);
      TimerOffsets(w, x.key, z.key);
    case ByString =>
      if x.key == y.key && |x.str| == |y.str| { MemTotal(x.str, y.str); }
      if y.key == z.key && |y.str| == |z.str| { MemTotal(y.str, z.str); }
      if x.key == z.key && |x.str| == |z.str| {
        MemTotal(x.str, z.str);
        if y.key == x.key && |y.str| == |x.str| && MemLess(x.str, z.str) && MemLess(z.str, y.str) {
          MemTransitive(x.str, z.str, y.str);
        }
        if y.key == x.key && |y.str| == |x.str| && MemLess(y.str, x.str) && MemLess(x.str, z.str) {
          MemTransitive(y.str, x.str, z.str);
        }
      }
  }

  /** In a sorted tree the descent of `x` ends after everything not greater and before everything greater. */
  lemma {:induction false} SlotSeparates(o: Order, w: Key, t: Shape, x: Item)
    requires SortedIn(o, w, InOrder(t)) && InWindow(o, w, x)
    ensures Slot(o, t, x) <= |InOrder(t)|
    ensures forall i :: 0 <= i < Slot(o, t, x) ==> !Less(o, x, ItemOf(InOrder(t)[i]))
    ensures forall i :: Slot(o, t, x) <= i < |InOrder(t)| ==> Less(o, x, ItemOf(InOrder(t)[i]))
  {
    if t.Br? {
      var l, y, r := InOrder(t.left), t.item, InOrder(t.right);
      SortedParts(o, w, l, y, r);
      SlotSeparates(o, w, t.left, x);
      SlotSeparates(o, w, t.right, x);
      forall e | e in l && !Less(o, x, ItemOf(y)) ensures !Less(o, x, ItemOf(e)) {
        LessIsWeakOrder(o, w, x, ItemOf(y), ItemOf(e));
      }
      forall e | e in r && Less(o, x, ItemOf(y)) ensures Less(o, x, ItemOf(e)) {
        LessIsWeakOrder(o, w, x, ItemOf(e), ItemOf(y));
      }
    }
  }

  lemma {:induction false} SortedParts(o: Order, w: Key, l: seq<Entry>, y: Entry, r: seq<Entry>)
    requires SortedIn(o, w, l + [y] + r)
    ensures SortedIn(o, w, l) && SortedIn(o, w, r) && InWindow(o, w, ItemOf(y))
    ensures forall e <- l :: !Less(o, ItemOf(y), ItemOf(e))
    ensures forall e <- r :: !Less(o, ItemOf(e), ItemOf(y))
  {
    var s := l + [y] + r;
    assert s[|l|] == y;
    forall i | 0 <= i < |l| ensures l[i] in s && s[i] == l[i] {}
    forall i | 0 <= i < |r| ensures r[i] in s && s[|l| + 1 + i] == r[i] {}
  }

  lemma {:induction false} PlacedSorted(o: Order, w: Key, before: seq<Entry>, e: Entry, after: seq<Entry>, k: nat)
    requires SortedIn(o, w, before) && InWindow(o, w, ItemOf(e)) && Placed(o, before, e, after, k)
    ensures SortedIn(o, w, after)
  {
    forall i, j | 0 <= i < j < |after| ensures !Less(o, ItemOf(after[j]), ItemOf(after[i])) {
      if i == k {
        assert after[j] == before[j - 1];
        LessIsWeakOrder(o, w, ItemOf(e), ItemOf(after[j]), ItemOf(e));
      } else if j == k {
        assert after[i] == before[i];
      } else {
        assert after[i] == before[if i < k then i else i - 1] && after[j] == before[if j < k then j else j - 1];
      }
    }
    forall x | x in after ensures InWindow(o, w, ItemOf(x)) {
      assert x == e || x in before;
    }
  }

  ghost predicate Removed(before: seq<Entry>, after: seq<Entry>, k: nat) {
    k < |before| && after == before[..k] + before[k + 1..]
  }

  lemma {:induction false} RemovedSorted(o: Order, w: Key, before: seq<Entry>, after: seq<Entry>, k: nat)
    requires SortedIn(o, w, before) && Removed(before, after, k)
    ensures SortedIn(o, w, after)
  {
    forall i, j | 0 <= i < j < |after| ensures !Less(o, ItemOf(after[j]), ItemOf(after[i])) {
      assert after[i] == before[if i < k then i else i + 1] && after[j] == before[if j < k then j else j + 1];
    }
  }

  // ----- runs

  datatype Op = Put(e: Entry) | Drop(e: Entry)

  /** One insertion or deletion, as the methods Insert and Delete promise it. */
  ghost predicate Step(o: Order, before: seq<Entry>, op: Op, after: seq<Entry>) {
    match op
    case Put(e) => e !in before && exists k: nat :: Placed(o, before, e, after, k)
    case Drop(e) => exists k: nat :: Removed(before, after, k) && before[k] == e
  }

  /** The states of a run that starts with an empty tree. */
  ghost predicate Run(o: Order, ops: seq<Op>, states: seq<seq<Entry>>) {
    && |states| == |ops| + 1 && states[0] == []
    && forall i :: 0 <= i < |ops| ==> Step(o, states[i], ops[i], states[i + 1])
  }

  /** The plain set the run describes. */
  ghost function SetOf(ops: seq<Op>): set<Entry> {
    if ops == [] then {} else
    var n := |ops| - 1;
    if ops[n].Put? then SetOf(ops[..n]) + {ops[n].e} else SetOf(ops[..n]) - {ops[n].e}
  }

  ghost predicate NoRepeats(s: seq<Entry>) {
    forall i, j :: 0 <= i < j < |s| ==> s[i] != s[j]
  }

  ghost predicate Elements(s: seq<Entry>, all: set<Entry>) {
    NoRepeats(s) && (set e | e in s) == all
  }

  lemma {:induction false} PutHolds(o: Order, before: seq<Entry>, e: Entry, after: seq<Entry>, k: nat, all: set<Entry>)
    requires Elements(before, all) && e !in before && Placed(o, before, e, after, k)
    ensures Elements(after, all + {e})
  {
    assert before == before[..k] + before[k..];
    forall i, j | 0 <= i < j < |after| ensures after[i] != after[j] {
      assert i != k ==> after[i] == before[if i < k then i else i - 1];
      assert j != k ==> after[j] == before[if j < k then j else j - 1];
    }
  }

  lemma {:induction false} DropHolds(before: seq<Entry>, after: seq<Entry>, k: nat, all: set<Entry>)
    requires Elements(before, all) && Removed(before, after, k)
    ensures Elements(after, all - {before[k]})
  {
    assert before == before[..k] + [before[k]] + before[k + 1..];
    forall i | 0 <= i < |after| ensures after[i] != before[k] {
      assert after[i] == before[if i < k then i else i + 1];
    }
    forall i, j | 0 <= i < j < |after| ensures after[i] != after[j] {
      assert after[i] == before[if i < k then i else i + 1] && after[j] == before[if j < k then j else j + 1];
    }
  }

  /** All of `s` lies in the window that starts at `w`. */
  ghost predicate AllIn(o: Order, w: Key, s: set<Entry>) {
    forall e <- s :: InWindow(o, w, ItemOf(e))
  }

  /** The window may move on past keys that are gone: sorted in one window is sorted in another that holds
      everything. */
  lemma {:induction false} Rewindow(o: Order, w: Key, w': Key, s: seq<Entry>)
    requires SortedIn(o, w, s) && forall e <- s :: InWindow(o, w', ItemOf(e))
    ensures SortedIn(o, w', s)
  {
  }

  /** After any run of insertions and deletions the in-order sequence is sorted, without repeats, and holds
      exactly what a plain set would hold. Window `ws[i]` holds what is live before operation `i` and what it adds. */
  lemma {:induction false} RunKeepsSet(o: Order, ws: seq<Key>, ops: seq<Op>, states: seq<seq<Entry>>)
    requires Run(o, ops, states) && |ws| == |ops| + 1
    requires forall i :: 0 <= i <= |ops| ==> AllIn(o, ws[i], SetOf(ops[..i]))
    requires forall i :: 0 <= i < |ops| && ops[i].Put? ==> InWindow(o, ws[i], ItemOf(ops[i].e))
    ensures SortedIn(o, ws[|ops|], states[|ops|]) && Elements(states[|ops|], SetOf(ops))
    decreases |ops|
  {
    hide SortedIn, Elements, Placed, Removed, InWindow;
    if ops == [] {
      NothingHeld(o, ws[0]);
    } else {
      var n := |ops| - 1;
      assert forall i :: 0 <= i <= n ==> ops[..n][..i] == ops[..i];
      assert ops[..n + 1] == ops;
      RunKeepsSet(o, ws[..n + 1], ops[..n], states[..n + 1]);
      assert ops[n] in ops && Step(o, states[n], ops[n], states[n + 1]);
      StepKeeps(o, ws[n], states[n], ops[n], states[n + 1], SetOf(ops[..n]));
      Held(states[n + 1], SetOf(ops));
      Rewindow(o, ws[n], ws[n + 1], states[n + 1]);
    }
  }

  lemma Held(s: seq<Entry>, all: set<Entry>)
    requires Elements(s, all)
    ensures forall e <- s :: e in all
  {
    assert forall e <- s :: e in (set x | x in s);
  }

  /** For timers: sorted means that the distances from the window's start do not decrease. */
  lemma {:induction false} SortedByOffset(w: Key, s: seq<Entry>)
    requires SortedIn(ByTimer, w, s)
    ensures forall i, j :: 0 <= i < j < |s| ==> Minus(s[i].key, w) <= Minus(s[j].key, w) < 0x8000_0000_0000_0000
  {
    forall i, j | 0 <= i < j < |s| ensures Minus(s[i].key, w) <= Minus(s[j].key, w) < 0x8000_0000_0000_0000 {
      TimerOffsets(w, s[j].key, s[i].key);
    }
  }

  lemma NothingHeld(o: Order, w: Key)
    ensures SortedIn(o, w, []) && Elements([], {})
  {
  }

  lemma {:induction false} StepKeeps(o: Order, w: Key, before: seq<Entry>, op: Op, after: seq<Entry>, all: set<Entry>)
    requires SortedIn(o, w, before) && Elements(before, all) && Step(o, before, op, after)
    requires op.Put? ==> InWindow(o, w, ItemOf(op.e))
    ensures SortedIn(o, w, after) && Elements(after, if op.Put? then all + {op.e} else all - {op.e})
  {
    hide SortedIn, Elements, Placed;
    match op
    case Put(e) =>
      var k: nat :| Placed(o, before, e, after, k);
      PlacedSorted(o, w, before, e, after, k);
      PutHolds(o, before, e, after, k, all);
    case Drop(e) =>
      var k: nat :| Removed(before, after, k) && before[k] == e;
      RemovedSorted(o, w, before, after, k);
      DropHolds(before, after, k, all);
  }
}
