/** The parts of an ngx_palloc.c pool and where its allocations lie. */
module PoolParts {

  type Byte = b: int | 0 <= b < 256

  const ALIGNMENT := 8              // NGX_ALIGNMENT
  const POOL_HEADER := 64           // sizeof(ngx_pool_t)
  const BLOCK_HEADER := 32          // sizeof(ngx_pool_data_t)
  const LARGE_HEADER := 16          // sizeof(ngx_pool_large_t)
  const MAX_FROM_POOL := 4095       // NGX_MAX_ALLOC_FROM_POOL
  const MIN_POOL_SIZE := 96         // NGX_MIN_POOL_SIZE

  datatype Option<T> = None | Some(value: T)

  /** A stretch of addresses. */
  datatype Region = Region(addr: nat, size: nat) {
    function End(): nat { addr + size }
    predicate Has(x: nat) { addr <= x < addr + size }
  }

  predicate Disjoint(r: Region, s: Region) { r.End() <= s.addr || s.End() <= r.addr }

  /** ngx_align_ptr */
  function Align(p: nat): (q: nat)
    ensures p <= q < p + ALIGNMENT && q % ALIGNMENT == 0
  {
    (p + ALIGNMENT - 1) / ALIGNMENT * ALIGNMENT
  }

  /** It is the least aligned address not below `p`. */
  lemma AlignLeast(p: nat, e: nat)
    requires e % ALIGNMENT == 0 && p <= e
    ensures Align(p) <= e
  {
  }

  lemma AlignStart(base: nat)
    requires base % ALIGNMENT == 0
    ensures Align(base + BLOCK_HEADER) == base + BLOCK_HEADER
  {
    AlignLeast(base + BLOCK_HEADER, base + BLOCK_HEADER);
  }

  const SIZE_LIMIT := 0x1_0000_0000_0000_0000   // one more than the largest size_t

  function SizeT(n: int): nat { n % SIZE_LIMIT }

  /** The room test of ngx_palloc_small subtracts in size_t: past the end of a block it sees huge room, so it
      is right exactly when the aligned mark is still inside the block, as it is in blocks of aligned size. */
  lemma RoomTest(last: nat, end: nat, n: nat)
    requires last <= end < SIZE_LIMIT && n < end
    ensures (SizeT(end - Align(last)) >= n <==> Align(last) + n <= end) <==> Align(last) <= end
    ensures end % ALIGNMENT == 0 ==> Align(last) <= end
  {
    var m := Align(last);
    if end % ALIGNMENT == 0 { AlignLeast(last, end); }
    if m > end {
      assert end - m + SIZE_LIMIT >= n by { assert m < last + ALIGNMENT; }
    }
  }

  /** ngx_pool_data_t and where the block lies; the chain through `next` is the sequence of blocks. */
  datatype Block = Block(base: nat, last: nat, end: nat, failed: nat) {
    function Extent(): Region
      requires base <= end
    {
      Region(base, end - base)
    }
  }

  /** Where the next allocation in a block would start. */
  function Mark(b: Block, align: bool): nat { if align then Align(b.last) else b.last }

  predicate HasRoom(b: Block, n: nat, align: bool) { Mark(b, align) + n <= b.end }

  /** ngx_pool_large_t: where its header lies and what it holds, None for NULL. */
  datatype Large = Large(header: nat, alloc: Option<Region>)

  /** `p == l->alloc` */
  predicate Matches(l: Large, p: nat) { p == match l.alloc case Some(r) => r.addr case None => 0 }

  /** Bytes at the front of block `i` that are never handed out. */
  function Header(i: nat): nat { if i == 0 then POOL_HEADER else BLOCK_HEADER }

  // ----- where allocations lie

  /** Every block has the pool's size, an aligned base, and its fill mark between header and end. */
  ghost predicate BlocksOk(blocks: seq<Block>, size: nat) {
    && MIN_POOL_SIZE <= size < SIZE_LIMIT && size % ALIGNMENT == 0 && blocks != []
    && forall i :: 0 <= i < |blocks| ==>
      var b := blocks[i];
      b.base % ALIGNMENT == 0 && b.end == b.base + size && b.base + Header(i) <= b.last <= b.end
  }

  /** Allocation `r` lies in block `i` between its header and its fill mark. */
  predicate Inside(blocks: seq<Block>, i: nat, r: Region) {
    i < |blocks| && blocks[i].base + Header(i) <= r.addr && r.End() <= blocks[i].last
  }

  /** Allocation `r` is a large object. */
  predicate IsLarge(large: seq<Large>, k: nat, r: Region) { k < |large| && large[k].alloc == Some(r) }

  /** An allocation is inside some block or is a large object of its own. */
  ghost predicate Housed(blocks: seq<Block>, large: seq<Large>, r: Region) {
    r.size == 0 || (exists i :: Inside(blocks, i, r)) || (exists k :: IsLarge(large, k, r))
  }

  ghost predicate Apart(held: seq<Region>) {
    forall i, j :: 0 <= i < j < |held| ==> held[i].size == 0 || held[j].size == 0 || Disjoint(held[i], held[j])
  }

  /** Every allocation is housed, and no two share a byte. */
  ghost predicate Placed(blocks: seq<Block>, large: seq<Large>, held: seq<Region>) {
    (forall r <- held :: Housed(blocks, large, r)) && Apart(held)
  }

  /** Where the headers of the large objects lie. */
  ghost function Headers(large: seq<Large>): seq<Region> {
    seq(|large|, i requires 0 <= i < |large| => Region(large[i].header, LARGE_HEADER))
  }

  /** Every large object is a live allocation. */
  ghost predicate Listed(large: seq<Large>, given: seq<Region>) {
    forall l <- large :: l.alloc.Some? ==>
      l.alloc.value in given && l.alloc.value.size > 0 && l.alloc.value.addr > 0
  }

  /** The system regions the pool owns: its blocks and its live large objects, all different. */
  ghost predicate Owns(live: set<Region>, blocks: seq<Block>, large: seq<Large>) {
    && (forall i :: 0 <= i < |blocks| ==> blocks[i].base <= blocks[i].end && blocks[i].Extent() in live)
    && (forall i, j :: 0 <= i < j < |blocks| ==> blocks[i].base != blocks[j].base)
    && (forall k :: 0 <= k < |large| && large[k].alloc.Some? ==> large[k].alloc.value in live)
    && (forall k, l :: 0 <= k < l < |large| && large[k].alloc.Some? ==> large[k].alloc != large[l].alloc)
    && (forall i, k :: 0 <= i < |blocks| && 0 <= k < |large| && large[k].alloc.Some? ==>
      large[k].alloc.value != blocks[i].Extent())
  }

  ghost predicate LiveApart(live: set<Region>) {
    forall r, s :: r in live && s in live && r != s ==> Disjoint(r, s)
  }

  /** `r` is a system region the pool does not own yet. */
  ghost predicate Foreign(live: set<Region>, blocks: seq<Block>, large: seq<Large>, r: Region) {
    && r in live && r.size > 0
    && (forall i :: 0 <= i < |blocks| ==> blocks[i].base <= blocks[i].end && blocks[i].Extent() != r)
    && (forall k :: 0 <= k < |large| ==> large[k].alloc != Some(r))
  }

  /** The bytes of live regions keep their values. */
  ghost predicate Kept(live: set<Region>, mem: map<nat, Byte>, mem': map<nat, Byte>) {
    forall x <- mem :: (exists r <- live :: r.Has(x)) ==> x in mem' && mem'[x] == mem[x]
  }

  /** Two live allocations never overlap, and none touches a byte of a block or large-object header. */
  lemma {:induction false} LiveAllocationsApart(live: set<Region>, blocks: seq<Block>, size: nat, large: seq<Large>,
      given: seq<Region>, r: Region)
    requires BlocksOk(blocks, size) && Owns(live, blocks, large) && LiveApart(live)
    requires Placed(blocks, large, given + Headers(large)) && r in given && r.size > 0
    ensures forall i :: 0 <= i < |blocks| ==> Disjoint(r, Region(blocks[i].base, Header(i)))
    ensures forall l <- large :: Disjoint(r, Region(l.header, LARGE_HEADER))
    ensures exists s <- live :: s.addr <= r.addr && r.End() <= s.End()
    ensures exists k ::
      && 0 <= k < |given| && given[k] == r
      && forall j :: 0 <= j < |given| && j != k && given[j].size > 0 ==> Disjoint(r, given[j])
  {
    var held := given + Headers(large);
    var k :| 0 <= k < |given| && given[k] == r;
    assert held[k] == r && r in held;
    forall l | l in large ensures Disjoint(r, Region(l.header, LARGE_HEADER)) {
      var x :| 0 <= x < |large| && large[x] == l;
      assert held[|given| + x] == Region(l.header, LARGE_HEADER);
    }
    forall j | 0 <= j < |given| && j != k && given[j].size > 0 ensures Disjoint(r, given[j]) {
      assert held[j] == given[j];
    }
    if i: nat :| Inside(blocks, i, r) {
      forall x | 0 <= x < |blocks| ensures Disjoint(r, Region(blocks[x].base, Header(x))) {
        if x != i { assert Disjoint(blocks[i].Extent(), blocks[x].Extent()); }
      }
      assert blocks[i].Extent() in live;
    } else {
      var x: nat :| IsLarge(large, x, r);
      forall y | 0 <= y < |blocks| ensures Disjoint(r, Region(blocks[y].base, Header(y))) {
        assert Disjoint(r, blocks[y].Extent());
      }
      assert r in live;
    }
  }

  // ----- steps

  /** An allocation at or above the fill mark of a block touches nothing that lives. */
  lemma {:induction false} AboveMark(live: set<Region>, blocks: seq<Block>, size: nat, large: seq<Large>, i: nat,
      a: Region, r: Region)
    requires BlocksOk(blocks, size) && Owns(live, blocks, large) && LiveApart(live) && i < |blocks|
    requires blocks[i].last <= a.addr && a.End() <= blocks[i].end && a.size > 0
    requires Housed(blocks, large, r) && r.size > 0
    ensures Disjoint(r, a)
  {
    if j: nat :| Inside(blocks, j, r) {
      if j != i { assert Disjoint(blocks[i].Extent(), blocks[j].Extent()); }
    } else {
      var k: nat :| IsLarge(large, k, r);
      assert Disjoint(r, blocks[i].Extent());
    }
  }

  /** Raising fill marks keeps what is housed. */
  lemma {:induction false} StillHoused(blocks: seq<Block>, blocks': seq<Block>, large: seq<Large>, held: seq<Region>)
    requires |blocks| <= |blocks'|
    requires forall i :: 0 <= i < |blocks| ==> blocks'[i].base == blocks[i].base && blocks[i].last <= blocks'[i].last
    ensures forall r <- held :: Housed(blocks, large, r) ==> Housed(blocks', large, r)
  {
    forall r | r in held && Housed(blocks, large, r) ensures Housed(blocks', large, r) {
      if i: nat :| r.size > 0 && Inside(blocks, i, r) {
        assert Inside(blocks', i, r);
      }
    }
  }

  /** The fill mark of block `i` moves up to the end of a new allocation. */
  lemma {:induction false} BumpPlaced(live: set<Region>, blocks: seq<Block>, size: nat, large: seq<Large>,
      held: seq<Region>, i: nat, a: Region)
    requires BlocksOk(blocks, size) && Owns(live, blocks, large) && LiveApart(live) && i < |blocks|
    requires Placed(blocks, large, held)
    requires blocks[i].last <= a.addr && a.End() <= blocks[i].end
    ensures var blocks' := blocks[i := blocks[i].(last := a.End())];
      BlocksOk(blocks', size) && Owns(live, blocks', large) && Placed(blocks', large, held + [a])
  {
    var blocks' := blocks[i := blocks[i].(last := a.End())];
    StillHoused(blocks, blocks', large, held);
    assert Inside(blocks', i, a);
    forall k | 0 <= k < |held| && held[k].size > 0 && a.size > 0 ensures Disjoint(held[k], a) {
      assert held[k] in held;
      AboveMark(live, blocks, size, large, i, a, held[k]);
    }
  }

  /** What happens to the order in which allocations are listed does not matter. */
  lemma {:induction false} Moved(blocks: seq<Block>, large: seq<Large>, u: seq<Region>, v: seq<Region>, x: Region)
    requires Placed(blocks, large, u + v + [x])
    ensures Placed(blocks, large, u + [x] + v)
  {
    var s, t := u + v + [x], u + [x] + v;
    forall r | r in t ensures Housed(blocks, large, r) {
      assert r in s;
    }
    assert forall i :: 0 <= i < |t| ==> t[i] == s[if i < |u| then i else if i == |u| then |s| - 1 else i - 1];
  }

  lemma FirstExtent(blocks: seq<Block>, size: nat)
    requires BlocksOk(blocks, size)
    ensures blocks != [] && blocks[0].end - blocks[0].base == size && MIN_POOL_SIZE <= size && size % ALIGNMENT == 0
  {
  }

  /** In a pool in order the room test never wraps. */
  lemma {:induction false} RoomExact(blocks: seq<Block>, size: nat, i: nat, n: nat, align: bool)
    requires BlocksOk(blocks, size) && i < |blocks|
    ensures var b := blocks[i];
      b.last <= Mark(b, align) <= b.end && (SizeT(b.end - Mark(b, align)) >= n <==> HasRoom(b, n, align))
  {
    var b := blocks[i];
    AlignLeast(b.last, b.end);
    assert 0 <= b.end - Mark(b, align) < SIZE_LIMIT;
  }

  lemma FirstBlock(live: set<Region>, b: Block, size: nat)
    requires MIN_POOL_SIZE <= size < SIZE_LIMIT && size % ALIGNMENT == 0 && b.base % ALIGNMENT == 0
    requires b.last == b.base + POOL_HEADER && b.end == b.base + size && b.Extent() in live
    ensures BlocksOk([b], size) && Owns(live, [b], []) && Placed([b], [], [] + Headers([])) && Listed([], [])
  {
  }

  /** A new block at the end of the chain, with one allocation in it. */
  lemma {:induction false} NewBlockPlaced(live: set<Region>, blocks: seq<Block>, size: nat, large: seq<Large>,
      held: seq<Region>, b: Block, a: Region)
    requires BlocksOk(blocks, size) && Owns(live, blocks, large) && LiveApart(live) && Placed(blocks, large, held)
    requires b.base % ALIGNMENT == 0 && b.end == b.base + size && b.Extent() !in live
    requires forall r <- live :: Disjoint(r, b.Extent())
    requires a.addr == b.base + BLOCK_HEADER && a.End() == b.last <= b.end
    ensures var blocks', live' := blocks + [b], live + {b.Extent()};
      BlocksOk(blocks', size) && Owns(live', blocks', large) && Placed(blocks', large, held + [a])
  {
    var blocks' := blocks + [b];
    forall i | 0 <= i < |blocks| ensures blocks[i].base != b.base {
      assert Disjoint(blocks[i].Extent(), b.Extent());
    }
    StillHoused(blocks, blocks', large, held);
    assert Inside(blocks', |blocks|, a);
    forall k | 0 <= k < |held| && held[k].size > 0 && a.size > 0 ensures Disjoint(held[k], a) {
      assert held[k] in held;
      assert Housed(blocks, large, held[k]);
      if x: nat :| Inside(blocks, x, held[k]) {
        assert Disjoint(blocks[x].Extent(), b.Extent());
      } else {
        var x: nat :| IsLarge(large, x, held[k]);
        assert Disjoint(held[k], b.Extent());
      }
    }
  }

  /** Failure counts have nothing to do with where allocations lie. */
  lemma {:induction false} SameButCounts(live: set<Region>, blocks: seq<Block>, blocks': seq<Block>, size: nat,
      large: seq<Large>, held: seq<Region>)
    requires BlocksOk(blocks, size) && Owns(live, blocks, large) && Placed(blocks, large, held)
    requires |blocks'| == |blocks| && forall i :: 0 <= i < |blocks| ==>
      blocks'[i] == blocks[i].(failed := blocks'[i].failed)
    ensures BlocksOk(blocks', size) && Owns(live, blocks', large) && Placed(blocks', large, held)
  {
    StillHoused(blocks, blocks', large, held);
  }

  // ----- large objects

  /** The first of the first `n` entries of the list that is empty, or as many as were looked at. */
  function FirstEmpty(large: seq<Large>, n: nat): (k: nat)
    ensures k <= n && k <= |large|
    ensures forall i :: 0 <= i < k ==> large[i].alloc.Some?
    ensures k < n && k < |large| ==> large[k].alloc.None?
  {
    if n == 0 || large == [] || large[0].alloc.None? then 0 else 1 + FirstEmpty(large[1..], n - 1)
  }

  /** What the large list becomes when an object comes in: an empty entry near the front is used again. */
  ghost predicate TookIn(large: seq<Large>, large': seq<Large>, r: Region) {
    var k := FirstEmpty(large, 5);
    if k < 5 && k < |large| then large' == large[k := large[k].(alloc := Some(r))] else Fronted(large, large', r)
  }

  ghost predicate Fronted(large: seq<Large>, large': seq<Large>, r: Region) {
    large' != [] && large'[0].alloc == Some(r) && large'[1..] == large
  }

  lemma {:induction false} FirstEmptyIs(large: seq<Large>, n: nat, k: nat)
    requires k <= n && k <= |large| && forall i :: 0 <= i < k ==> large[i].alloc.Some?
    requires k == n || k == |large| || large[k].alloc.None?
    ensures FirstEmpty(large, n) == k
  {
  }

  /** What calloc has just given is foreign, and the pool still owns what it owned. */
  lemma {:induction false} FreshForeign(live: set<Region>, blocks: seq<Block>, large: seq<Large>, r: Region)
    requires Owns(live, blocks, large) && r !in live && r.size > 0
    ensures Owns(live + {r}, blocks, large) && Foreign(live + {r}, blocks, large, r)
  {
  }

  lemma {:induction false} ForeignStays(live: set<Region>, blocks: seq<Block>, blocks': seq<Block>, large: seq<Large>,
      b: Block)
    requires |blocks'| == |blocks| && forall i :: 0 <= i < |blocks| ==>
      blocks'[i] == blocks[i].(failed := blocks'[i].failed)
    requires b.base <= b.end && b.Extent() !in live
    ensures forall r <- live :: Foreign(live, blocks, large, r) ==>
      Foreign(live + {b.Extent()}, blocks' + [b], large, r)
  {
  }

  lemma {:induction false} ForeignFilled(live: set<Region>, blocks: seq<Block>, large: seq<Large>, i: nat, last: nat)
    requires i < |blocks|
    ensures forall r <- live :: Foreign(live, blocks, large, r) ==>
      Foreign(live, blocks[i := blocks[i].(last := last)], large, r)
  {
  }

  lemma {:induction false} ForeignApart(live: set<Region>, blocks: seq<Block>, large: seq<Large>, size: nat, r: Region,
      a: Region)
    requires BlocksOk(blocks, size) && Owns(live, blocks, large) && LiveApart(live) && Foreign(live, blocks, large, r)
    requires Housed(blocks, large, a) && a.size > 0
    ensures Disjoint(a, r)
  {
    if x: nat :| Inside(blocks, x, a) {
      assert Disjoint(blocks[x].Extent(), r);
    } else {
      var x: nat :| IsLarge(large, x, a);
    }
  }

  /** A foreign region goes into an empty entry of the large list. */
  lemma {:induction false} SlotPlaced(live: set<Region>, blocks: seq<Block>, size: nat, large: seq<Large>,
      held: seq<Region>, k: nat, r: Region)
    requires BlocksOk(blocks, size) && Owns(live, blocks, large) && LiveApart(live) && Placed(blocks, large, held)
    requires Foreign(live, blocks, large, r) && k < |large| && large[k].alloc.None?
    ensures var large' := large[k := large[k].(alloc := Some(r))];
      Owns(live, blocks, large') && Placed(blocks, large', held + [r]) && Headers(large') == Headers(large)
  {
    var large' := large[k := large[k].(alloc := Some(r))];
    forall a | a in held ensures Housed(blocks, large', a) && (a.size > 0 ==> Disjoint(a, r)) {
      if a.size > 0 {
        ForeignApart(live, blocks, large, size, r, a);
        if x: nat :| IsLarge(large, x, a) { assert IsLarge(large', x, a); }
      }
    }
    assert IsLarge(large', k, r);
  }

  lemma ListedGrows(large: seq<Large>, given: seq<Region>, a: Region)
    requires Listed(large, given)
    ensures Listed(large, given + [a])
  {
  }

  lemma ListedSlot(large: seq<Large>, given: seq<Region>, k: nat, r: Region)
    requires Listed(large, given) && k < |large| && r.size > 0 && r.addr > 0
    ensures Listed(large[k := large[k].(alloc := Some(r))], given + [r])
  {
    forall l | l in large[k := large[k].(alloc := Some(r))] && l.alloc.Some?
      ensures l.alloc.value in given + [r] && l.alloc.value.addr > 0
    {
      assert l in large || l == large[k].(alloc := Some(r));
    }
  }

  /** A foreign region goes to the front of the large list, with a header allocated before it. */
  lemma {:induction false} FrontPlaced(live: set<Region>, blocks: seq<Block>, size: nat, large: seq<Large>,
      held: seq<Region>, header: nat, r: Region)
    requires BlocksOk(blocks, size) && Owns(live, blocks, large) && LiveApart(live) && Placed(blocks, large, held)
    requires Foreign(live, blocks, large, r)
    ensures var large' := [Large(header, Some(r))] + large;
      Owns(live, blocks, large') && Placed(blocks, large', held + [r])
  {
    var large' := [Large(header, Some(r))] + large;
    forall a | a in held ensures Housed(blocks, large', a) && (a.size > 0 ==> Disjoint(a, r)) {
      if a.size > 0 {
        ForeignApart(live, blocks, large, size, r, a);
        if x: nat :| IsLarge(large, x, a) { assert IsLarge(large', x + 1, a); }
      }
    }
    assert IsLarge(large', 0, r);
  }

  lemma {:induction false} FrontOrder(blocks: seq<Block>, large: seq<Large>, given: seq<Region>, header: nat, r: Region)
    requires var large' := [Large(header, Some(r))] + large;
      Placed(blocks, large', given + Headers(large) + [Region(header, LARGE_HEADER)] + [r])
    requires Listed(large, given) && r.size > 0 && r.addr > 0
    ensures var large' := [Large(header, Some(r))] + large;
      Placed(blocks, large', given + [r] + Headers(large')) && Listed(large', given + [r])
  {
    var large' := [Large(header, Some(r))] + large;
    var h, hs := Region(header, LARGE_HEADER), Headers(large);
    assert given + hs + [h] + [r] == given + (hs + [h]) + [r];
    Moved(blocks, large', given, hs + [h], r);
    assert given + [r] + (hs + [h]) == given + [r] + hs + [h];
    Moved(blocks, large', given + [r], hs, h);
    assert Headers(large') == [h] + hs;
    assert given + [r] + [h] + hs == given + [r] + ([h] + hs);
  }

  /** `given` with entry `i` gone. */
  ghost function Without(given: seq<Region>, i: nat): seq<Region>
    requires i < |given|
  {
    given[..i] + given[i + 1..]
  }

  /** A large object goes back to the system; its header stays listed and can be used again. */
  lemma {:induction false} FreedPlaced(live: set<Region>, blocks: seq<Block>, large: seq<Large>, given: seq<Region>,
      k: nat, i: nat)
    requires Owns(live, blocks, large) && Placed(blocks, large, given + Headers(large)) && Listed(large, given)
    requires i < |given| && k < |large| && large[k].alloc == Some(given[i])
    ensures var large' := large[k := large[k].(alloc := None)];
      && Owns(live - {given[i]}, blocks, large') && Placed(blocks, large', Without(given, i) + Headers(large'))
      && Listed(large', Without(given, i))
  {
    var r, given', large' := given[i], Without(given, i), large[k := large[k].(alloc := None)];
    var held, held' := given + Headers(large), given' + Headers(large');
    assert forall x :: 0 <= x < |held'| ==> held'[x] == held[if x < i then x else x + 1];
    assert large[k] in large;
    forall a | a in held' ensures Housed(blocks, large', a) {
      var x :| 0 <= x < |held'| && held'[x] == a;
      var y := if x < i then x else x + 1;
      assert held[y] == a && a in held && held[i] == r;
      assert a.size == 0 || a != r;
      if y: nat :| IsLarge(large, y, a) { assert IsLarge(large', y, a) || a.size == 0; }
    }
    forall l | l in large' && l.alloc.Some? ensures l.alloc.value in given' && l.alloc.value.size > 0 {
      var x :| 0 <= x < |large'| && large'[x] == l;
      assert x != k && l in large && l.alloc.value != r;
      var y :| 0 <= y < |given| && given[y] == l.alloc.value;
      assert given'[if y < i then y else y - 1] == l.alloc.value;
    }
  }

  lemma OwnedLive(live: set<Region>, blocks: seq<Block>, large: seq<Large>, k: nat)
    requires Owns(live, blocks, large) && k < |large| && large[k].alloc.Some?
    ensures large[k].alloc.value in live
  {
  }

  // ----- what the pool owns

  /** The live large objects. */
  ghost function Objects(large: seq<Large>): set<Region> {
    set l | l in large && l.alloc.Some? :: l.alloc.value
  }

  lemma {:induction false} ObjectsNext(large: seq<Large>, k: nat)
    requires k < |large|
    ensures Objects(large[..k + 1]) ==
      Objects(large[..k]) + (if large[k].alloc.Some? then {large[k].alloc.value} else {})
  {
    assert large[..k + 1] == large[..k] + [large[k]];
  }

  /** The blocks themselves. */
  ghost function Extents(blocks: seq<Block>): set<Region> {
    set i | 0 <= i < |blocks| && blocks[i].base <= blocks[i].end :: blocks[i].Extent()
  }

  lemma {:induction false} ExtentsNext(blocks: seq<Block>, k: nat)
    requires k < |blocks| && blocks[k].base <= blocks[k].end
    ensures Extents(blocks[..k + 1]) == Extents(blocks[..k]) + {blocks[k].Extent()}
  {
    assert blocks[..k + 1] == blocks[..k] + [blocks[k]];
  }

  lemma {:induction false} ObjectsFront(large: seq<Large>, l: Large)
    ensures Objects([l] + large) == Objects(large) + if l.alloc.Some? then {l.alloc.value} else {}
  {
    var large' := [l] + large;
    assert forall x :: x in large' <==> x == l || x in large;
  }

  lemma ObjectsFronted(large: seq<Large>, large': seq<Large>, r: Region)
    requires Fronted(large, large', r)
    ensures Objects(large') == Objects(large) + {r}
  {
    assert large' == [large'[0]] + large;
    ObjectsFront(large, large'[0]);
  }

  lemma NoObjects()
    ensures Objects([]) == {}
  {
  }

  lemma HadRoom(b: Block, n: nat, align: bool)
    requires HasRoom(b, n, align)
    ensures Mark(b, align) + n <= b.end
  {
  }

  lemma {:induction false} ObjectsSlot(large: seq<Large>, k: nat, r: Region)
    requires k < |large| && large[k].alloc.None?
    ensures Objects(large[k := large[k].(alloc := Some(r))]) == Objects(large) + {r}
  {
    var large' := large[k := large[k].(alloc := Some(r))];
    assert large'[k] in large';
    forall l | l in large && l.alloc.Some? ensures l in large' {
      var i :| 0 <= i < |large| && large[i] == l;
      assert large'[i] == l;
    }
  }

  lemma {:induction false} ObjectsDrop(live: set<Region>, blocks: seq<Block>, large: seq<Large>, k: nat)
    requires Owns(live, blocks, large) && k < |large| && large[k].alloc.Some?
    ensures Objects(large[k := large[k].(alloc := None)]) == Objects(large) - {large[k].alloc.value}
  {
    var large' := large[k := large[k].(alloc := None)];
    forall l | l in large' && l.alloc.Some? ensures l in large && l.alloc != large[k].alloc {
      var i :| 0 <= i < |large| && large'[i] == l;
    }
    forall l | l in large && l.alloc.Some? && l.alloc != large[k].alloc ensures l in large' {
      var i :| 0 <= i < |large| && large[i] == l;
      assert large'[i] == l;
    }
  }

  /** Filling and counting blocks does not change where they lie. */
  lemma {:induction false} ExtentsSame(blocks: seq<Block>, blocks': seq<Block>)
    requires |blocks'| == |blocks|
    requires forall i :: 0 <= i < |blocks| ==> blocks'[i].base == blocks[i].base && blocks'[i].end == blocks[i].end
    ensures Extents(blocks') == Extents(blocks)
  {
    assert forall i :: 0 <= i < |blocks| && blocks[i].base <= blocks[i].end ==>
      blocks'[i].Extent() == blocks[i].Extent();
  }

  lemma {:induction false} ExtentsMore(blocks: seq<Block>, b: Block)
    requires b.base <= b.end
    ensures Extents(blocks + [b]) == Extents(blocks) + {b.Extent()}
  {
    ExtentsNext(blocks + [b], |blocks|);
    assert (blocks + [b])[..|blocks|] == blocks && (blocks + [b])[..|blocks| + 1] == blocks + [b];
  }

  /** What belongs to others: live, but neither a block nor a large object of the pool. */
  ghost function Rest(live: set<Region>, blocks: seq<Block>, large: seq<Large>): set<Region> {
    live - Extents(blocks) - Objects(large)
  }

  /** The first block from `from` on with room, or the end of the chain. */
  ghost predicate FirstRoom(blocks: seq<Block>, from: nat, n: nat, align: bool, p: nat) {
    && from <= p <= |blocks| && (forall i :: from <= i < p ==> !HasRoom(blocks[i], n, align))
    && (p < |blocks| ==> HasRoom(blocks[p], n, align))
  }

  /** A new block of the given size has been added, with `n` bytes taken at `m`; some blocks have failed once more. */
  ghost predicate Appended(blocks: seq<Block>, blocks': seq<Block>, size: nat, m: nat, n: nat) {
    && |blocks'| == |blocks| + 1 && m >= BLOCK_HEADER
    && (forall i :: 0 <= i < |blocks| ==> blocks'[i] == blocks[i].(failed := blocks'[i].failed))
    && blocks'[|blocks|] == Block(m - BLOCK_HEADER, m + n, m - BLOCK_HEADER + size, 0)
  }

  /** What a small allocation of `n` bytes at `m` does to the blocks. */
  ghost predicate Took(blocks: seq<Block>, blocks': seq<Block>, size: nat, p: nat, m: nat, n: nat, align: bool) {
    if p < |blocks| then
      m == Mark(blocks[p], align) && blocks' == blocks[p := blocks[p].(last := m + n)]
    else Appended(blocks, blocks', size, m, n)
  }

  function Emptied(b: Block): Block { Block(b.base, b.base + POOL_HEADER, b.end, 0) }

  /** Emptying every block leaves a pool in order. */
  lemma {:induction false} EmptiedPlaced(live: set<Region>, blocks: seq<Block>, blocks': seq<Block>, size: nat,
      large: seq<Large>)
    requires BlocksOk(blocks, size) && Owns(live, blocks, large) && |blocks'| == |blocks|
    requires forall i :: 0 <= i < |blocks| ==> blocks'[i] == Emptied(blocks[i])
    ensures BlocksOk(blocks', size) && Owns(live - Objects(large), blocks', [])
    ensures Placed(blocks', [], [] + Headers([])) && Listed([], [])
  {
  }

  // ----- growth in place

  /** Moving the first block's fill mark inside the block changes nothing else. */
  lemma {:induction false} MarkMoved(live: set<Region>, blocks: seq<Block>, size: nat, large: seq<Large>, last: nat)
    requires BlocksOk(blocks, size) && Owns(live, blocks, large)
    requires blocks[0].base + POOL_HEADER <= last <= blocks[0].end
    ensures var blocks' := blocks[0 := blocks[0].(last := last)]; BlocksOk(blocks', size) && Owns(live, blocks', large)
  {
  }

  /** The allocation that ends at the first block's fill mark grows with the mark. */
  lemma {:induction false} GrowPlaced(live: set<Region>, blocks: seq<Block>, size: nat, large: seq<Large>,
      given: seq<Region>, i: nat, more: nat)
    requires BlocksOk(blocks, size) && Owns(live, blocks, large) && LiveApart(live)
    requires Placed(blocks, large, given + Headers(large)) && Listed(large, given)
    requires i < |given| && given[i].size > 0 && given[i].End() == blocks[0].last
    requires blocks[0].last + more <= blocks[0].end
    ensures var given' := given[i := Region(given[i].addr, given[i].size + more)];
      var blocks' := blocks[0 := blocks[0].(last := blocks[0].last + more)];
      && BlocksOk(blocks', size) && Owns(live, blocks', large) && Placed(blocks', large, given' + Headers(large))
      && Listed(large, given')
  {
    hide Owns, LiveApart, Listed, Headers, Housed, Apart;
    var r, r' := given[i], Region(given[i].addr, given[i].size + more);
    var given', blocks' := given[i := r'], blocks[0 := blocks[0].(last := blocks[0].last + more)];
    var held, held' := given + Headers(large), given' + Headers(large);
    assert held' == held[i := r'] && held[i] == r && r in held;
    AtMark(live, blocks, size, large, r);
    MarkMoved(live, blocks, size, large, blocks[0].last + more);
    GrowApart(live, blocks, size, large, held, i, more);
    GrowHoused(blocks, large, held, i, more);
    StillListed(large, given, i, r');
  }

  lemma {:induction false} GrowApart(live: set<Region>, blocks: seq<Block>, size: nat, large: seq<Large>,
      held: seq<Region>, i: nat, more: nat)
    requires BlocksOk(blocks, size) && Owns(live, blocks, large) && LiveApart(live) && Placed(blocks, large, held)
    requires i < |held| && held[i].size > 0 && held[i].End() == blocks[0].last && blocks[0].last + more <= blocks[0].end
    ensures Apart(held[i := Region(held[i].addr, held[i].size + more)])
  {
    forall j | 0 <= j < |held| && j != i && held[j].size > 0
      ensures Disjoint(held[j], Region(held[i].addr, held[i].size + more))
    {
      assert held[j] in held;
      if more > 0 { AboveMark(live, blocks, size, large, 0, Region(blocks[0].last, more), held[j]); }
    }
  }

  lemma {:induction false} GrowHoused(blocks: seq<Block>, large: seq<Large>, held: seq<Region>, i: nat, more: nat)
    requires blocks != [] && i < |held| && Inside(blocks, 0, held[i]) && held[i].End() == blocks[0].last
    requires forall r <- held :: Housed(blocks, large, r)
    ensures var blocks' := blocks[0 := blocks[0].(last := blocks[0].last + more)];
      forall r <- held[i := Region(held[i].addr, held[i].size + more)] :: Housed(blocks', large, r)
  {
    var blocks' := blocks[0 := blocks[0].(last := blocks[0].last + more)];
    var r' := Region(held[i].addr, held[i].size + more);
    StillHoused(blocks, blocks', large, held);
    assert Inside(blocks', 0, r');
    assert forall a <- held[i := r'] :: a == r' || a in held;
  }

  lemma {:induction false} DropHoused(blocks: seq<Block>, large: seq<Large>, held: seq<Region>, i: nat)
    requires blocks != [] && i < |held| && Inside(blocks, 0, held[i]) && held[i].End() == blocks[0].last
    requires held[i].size > 0
    requires Placed(blocks, large, held)
    ensures var blocks' := blocks[0 := blocks[0].(last := held[i].addr)];
      forall x :: 0 <= x < |held| && x != i ==> Housed(blocks', large, held[x])
  {
    var blocks' := blocks[0 := blocks[0].(last := held[i].addr)];
    forall x | 0 <= x < |held| && x != i ensures Housed(blocks', large, held[x]) {
      assert held[x] in held;
      if z: nat :| held[x].size > 0 && Inside(blocks, z, held[x]) { assert Inside(blocks', z, held[x]); }
    }
  }

  /** An allocation that is no large object can be replaced or dropped. */
  lemma {:induction false} StillListed(large: seq<Large>, given: seq<Region>, i: nat, r: Region)
    requires Listed(large, given) && i < |given| && forall k: nat :: !IsLarge(large, k, given[i])
    ensures Listed(large, given[i := r]) && Listed(large, Without(given, i))
  {
    forall l | l in large && l.alloc.Some?
      ensures l.alloc.value in given[i := r] && l.alloc.value in Without(given, i)
    {
      var x :| 0 <= x < |large| && large[x] == l;
      assert !IsLarge(large, x, given[i]);
      var y :| 0 <= y < |given| && given[y] == l.alloc.value;
      assert given[i := r][y] == given[y] && Without(given, i)[if y < i then y else y - 1] == given[y];
    }
  }

  /** What ends at the first block's fill mark lies in the first block. */
  lemma {:induction false} AtMark(live: set<Region>, blocks: seq<Block>, size: nat, large: seq<Large>, r: Region)
    requires BlocksOk(blocks, size) && Owns(live, blocks, large) && LiveApart(live)
    requires Housed(blocks, large, r) && r.size > 0 && r.End() == blocks[0].last
    ensures Inside(blocks, 0, r) && forall k: nat :: !IsLarge(large, k, r)
  {
    forall i | 0 < i < |blocks| ensures Disjoint(blocks[i].Extent(), blocks[0].Extent()) {
    }
    forall k | 0 <= k < |large| && large[k].alloc.Some? ensures Disjoint(large[k].alloc.value, blocks[0].Extent()) {
    }
  }

  /** The allocation that ends at the first block's fill mark goes, and the mark comes down to its start. */
  lemma {:induction false} DropPlaced(live: set<Region>, blocks: seq<Block>, size: nat, large: seq<Large>,
      given: seq<Region>, i: nat)
    requires BlocksOk(blocks, size) && Owns(live, blocks, large) && LiveApart(live)
    requires Placed(blocks, large, given + Headers(large)) && Listed(large, given)
    requires i < |given| && given[i].size > 0 && given[i].End() == blocks[0].last
    ensures var blocks' := blocks[0 := blocks[0].(last := given[i].addr)];
      && BlocksOk(blocks', size) && Owns(live, blocks', large)
      && Placed(blocks', large, Without(given, i) + Headers(large))
      && Listed(large, Without(given, i))
  {
    hide Owns, LiveApart, Listed, Headers, Housed;
    var r, held, held' := given[i], given + Headers(large), Without(given, i) + Headers(large);
    assert forall x :: 0 <= x < |held'| ==> held'[x] == held[if x < i then x else x + 1];
    assert held[i] == r && r in held;
    AtMark(live, blocks, size, large, r);
    MarkMoved(live, blocks, size, large, r.addr);
    DropHoused(blocks, large, held, i);
    StillListed(large, given, i, r);
  }

  // ----- memory

  lemma KeptSame(live: set<Region>, mem: map<nat, Byte>)
    ensures Kept(live, mem, mem)
  {
  }

  lemma {:induction false} KeptOn(live: set<Region>, live': set<Region>, mem: map<nat, Byte>, mem1: map<nat, Byte>,
      mem2: map<nat, Byte>)
    requires live <= live' && Kept(live, mem, mem1) && Kept(live', mem1, mem2)
    ensures Kept(live, mem, mem2)
  {
  }

  lemma {:induction false} CallocKept(live: set<Region>, mem: map<nat, Byte>, mem': map<nat, Byte>, r: Region)
    requires forall x <- live :: Disjoint(x, r)
    requires forall x <- mem :: x in mem' && mem'[x] == if r.addr <= x < r.addr + r.size then 0 else mem[x]
    ensures Kept(live, mem, mem')
  {
  }

  // ----- failure counts

  /** How often block `i` has failed once the chain has `n` blocks, if it had `since` blocks at the last reset or
      when the pool was made: once for each block added behind its successor since then, and six times at most. */
  function Fails(n: nat, since: nat, i: nat): nat {
    var d := n - if since > i + 2 then since else i + 2;
    if d < 0 then 0 else if d > 6 then 6 else d
  }

  /** The failure counts, and `current`: the first block until six blocks have been added, then the seventh
      from the end. */
  ghost predicate Counts(blocks: seq<Block>, current: nat, since: nat) {
    && 1 <= since <= |blocks| && current == (if |blocks| < since + 6 then 0 else |blocks| - 7)
    && forall i :: 0 <= i < |blocks| ==> blocks[i].failed == Fails(|blocks|, since, i)
  }

  /** At most so many blocks are examined for a small allocation. */
  function ScanLimit(since: nat): nat { if since <= 2 then 7 else since + 5 }

  /** The bound on the scan. The blocks before `current` have failed six times, and the counts never increase
      along the chain. */
  lemma {:induction false} ScanBound(blocks: seq<Block>, current: nat, since: nat)
    requires Counts(blocks, current, since)
    ensures current < |blocks| && |blocks| - current <= ScanLimit(since)
    ensures forall i :: 0 <= i < current ==> blocks[i].failed == 6
    ensures forall i, j :: 0 <= i <= j < |blocks| ==> blocks[i].failed >= blocks[j].failed
  {
  }

  /** A chain of `n` empty blocks with the counts of a pool that had `since` at its last reset. */
  function Chain(n: nat, since: nat, k: nat): seq<Block> {
    if k == 0 then [] else Chain(n, since, k - 1) + [Block(0, 0, 0, Fails(n, since, k - 1))]
  }

  lemma {:induction false} ChainCounts(n: nat, since: nat, k: nat)
    ensures |Chain(n, since, k)| == k
    ensures forall i :: 0 <= i < k ==> Chain(n, since, k)[i].failed == Fails(n, since, i)
  {
    if k > 0 { ChainCounts(n, since, k - 1); }
  }

  /** A pool that had at most two blocks at its last reset, or was never reset, scans at most seven blocks; one
      that had more comes to scan more. */
  lemma {:induction false} SevenIffTwo(since: nat)
    requires since >= 1
    ensures (forall blocks, current :: Counts(blocks, current, since) ==> |blocks| - current <= 7) <==> since <= 2
  {
    forall blocks, current | Counts(blocks, current, since) ensures |blocks| - current <= ScanLimit(since) {
      ScanBound(blocks, current, since);
    }
    if since > 2 {
      ChainCounts(since + 5, since, since + 5);
      assert Counts(Chain(since + 5, since, since + 5), 0, since);
    }
  }

  /** After six new blocks it makes no difference that there ever was a reset. */
  lemma {:induction false} ResetForgotten(blocks: seq<Block>, current: nat, since: nat)
    requires Counts(blocks, current, since) && |blocks| >= since + 6
    ensures Counts(blocks, current, 1)
  {
  }

  lemma ResetCounts(blocks: seq<Block>)
    requires blocks != [] && forall i :: 0 <= i < |blocks| ==> blocks[i].failed == 0
    ensures Counts(blocks, 0, |blocks|)
  {
  }

  /** `failed++` */
  function Failed(b: Block, counted: bool): nat { if counted then b.failed + 1 else b.failed }

  lemma CountsFilled(blocks: seq<Block>, i: nat, last: nat, current: nat, since: nat)
    requires i < |blocks| && Counts(blocks, current, since)
    ensures Counts(blocks[i := blocks[i].(last := last)], current, since)
  {
  }

  /** The counting loop and a new block keep the counts. */
  lemma {:induction false} CountsKept(blocks: seq<Block>, blocks': seq<Block>, current: nat, current': nat, since: nat,
      b: Block)
    requires Counts(blocks, current, since)
    requires |blocks'| == |blocks| && current < |blocks| && current' < |blocks| && b.failed == 0
    requires forall i :: 0 <= i < |blocks| ==> blocks'[i].failed == Failed(blocks[i], current <= i < |blocks| - 1)
    requires forall i :: current <= i < |blocks| - 1 && blocks[i].failed > 4 ==> current' > i
    requires current' == current || (current < current' && blocks[current' - 1].failed > 4)
    ensures Counts(blocks' + [b], current', since)
  {
    var n := |blocks|;
    assert n >= since + 6 ==> blocks[n - 7].failed == 5;
    assert n == since + 5 && since >= 2 ==> blocks[since - 2].failed == 5;
    assert current < current' ==> blocks[current' - 1].failed == Fails(n, since, current' - 1);
  }
}
