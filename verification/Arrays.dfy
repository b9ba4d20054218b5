/** ngx_array.c: growing arrays whose elements lie in a shared pool. */
module Arrays {

  import opened PoolParts
  import opened Pools

  const ARRAY_HEADER := 40          // sizeof(ngx_array_t)

  function Get(mem: map<nat, Byte>, x: nat): Byte { if x in mem then mem[x] else 0 }

  function Bytes(mem: map<nat, Byte>, a: nat, n: nat): (s: seq<Byte>)
    ensures |s| == n && forall k :: 0 <= k < n ==> s[k] == Get(mem, a + k)
  {
    if n == 0 then [] else Bytes(mem, a, n - 1) + [Get(mem, a + n - 1)]
  }

  /** The byte that lands at `x` when memory is copied from `src` to `dst`. */
  function From(mem: map<nat, Byte>, src: nat, dst: nat, x: nat): Byte
    requires dst <= x
  {
    Get(mem, src + (x - dst))
  }

  /** Every byte of the allocations `given` keeps its value. */
  ghost predicate Untouched(given: seq<Region>, mem: map<nat, Byte>, mem': map<nat, Byte>) {
    forall s, x: nat {:trigger s in given, s.Has(x)} :: s in given && s.Has(x) ==> Get(mem', x) == Get(mem, x)
  }

  lemma {:induction false} UntouchedBytes(given: seq<Region>, mem: map<nat, Byte>, mem': map<nat, Byte>, r: Region,
      n: nat)
    requires Untouched(given, mem, mem') && r in given && n <= r.size
    ensures Bytes(mem', r.addr, n) == Bytes(mem, r.addr, n)
  {
    forall x: nat | r.addr <= x < r.addr + n ensures Get(mem', x) == Get(mem, x) {
      assert r.Has(x);
    }
    assert forall k :: 0 <= k < n ==> Bytes(mem', r.addr, n)[k] == Bytes(mem, r.addr, n)[k];
  }

  /** A pool operation changes no byte of a live allocation. */
  lemma {:induction false} KeptUntouched(live: set<Region>, blocks: seq<Block>, large: seq<Large>, given: seq<Region>,
      held: seq<Region>, mem: map<nat, Byte>, mem': map<nat, Byte>)
    requires Owns(live, blocks, large) && Placed(blocks, large, held) && given <= held
    requires forall r <- live, x: nat | r.Has(x) :: x in mem
    requires Kept(live, mem, mem')
    requires BelowEnds(blocks)
    ensures Untouched(given, mem, mem')
  {
    forall s, x: nat | s in given && s.Has(x) ensures Get(mem', x) == Get(mem, x) {
      assert s in held;
      if i: nat :| Inside(blocks, i, s) {
        assert blocks[i].Extent() in live && blocks[i].Extent().Has(x);
      } else {
        var k: nat :| IsLarge(large, k, s);
        assert s in live;
      }
    }
  }

  ghost predicate BelowEnds(blocks: seq<Block>) {
    forall b <- blocks :: b.last <= b.end
  }

  lemma OrderedEnds(blocks: seq<Block>, size: nat)
    requires BlocksOk(blocks, size)
    ensures BelowEnds(blocks) && blocks != []
  {
  }

  /** Different non-empty allocations start at different places and share no byte. */
  lemma {:induction false} HeldApart(blocks: seq<Block>, large: seq<Large>, given: seq<Region>, held: seq<Region>)
    requires Placed(blocks, large, held) && given <= held
    ensures forall r, s :: r in given && s in given && r != s && r.size > 0 && s.size > 0 ==> Disjoint(r, s)
  {
  }

  /** A target allocation at the end of the list starts where no other does. */
  lemma {:induction false} LastFresh(blocks: seq<Block>, large: seq<Large>, given: seq<Region>, r: Region,
      held: seq<Region>)
    requires Placed(blocks, large, held) && given + [r] <= held && r.size > 0
    ensures r !in given && forall s <- given :: s.size > 0 ==> Disjoint(s, r)
  {
    forall s | s in given && s.size > 0 ensures Disjoint(s, r) {
      var i :| 0 <= i < |given| && given[i] == s;
      assert held[i] == s && held[|given|] == r;
    }
  }

  /** How many bytes `n` elements take. */
  function Bulk(size: nat, n: nat): nat { size * n }

  lemma Times(a: nat, b: nat, c: nat)
    ensures Bulk(a, b + c) == Bulk(a, b) + Bulk(a, c)
    ensures a > 0 && b > 0 ==> Bulk(a, b) > 0
    ensures Bulk(a, 1) == a && Bulk(a, 0) == 0
  {
  }

  /** ngx_palloc, and what it means for those who already hold memory from the pool. */
  method Take(pool: Pool, n: nat) returns (a: nat)
    requires pool.Valid() && n > 0
    modifies pool`blocks, pool`current, pool`given, pool`large, pool.heap
    ensures pool.Valid() && pool.given == old(pool.given) + [Region(a, n)]
    ensures Untouched(old(pool.given), old(pool.heap.mem), pool.heap.mem)
    ensures Region(a, n) !in old(pool.given) && forall s <- old(pool.given) :: s.size > 0 ==> Disjoint(s, Region(a, n))
    ensures forall x :: a <= x < a + n ==> x in pool.heap.mem
  {
    hide BlocksOk, Owns, Placed, Listed, Headers, LiveApart, Counts, Kept, Untouched;
    ghost var given, held, blocks, large, live, mem :=
      pool.given, pool.given + Headers(pool.large), pool.blocks, pool.large, pool.heap.live, pool.heap.mem;
    OrderedEnds(blocks, pool.size);
    ghost var examined;
    a, examined := pool.Alloc(n, true);
    KeptUntouched(live, blocks, large, given, held, mem, pool.heap.mem);
    LastFresh(pool.blocks, pool.large, given, Region(a, n), pool.given + Headers(pool.large));
    OrderedEnds(pool.blocks, pool.size);
    GivenMapped(pool.heap.live, pool.blocks, pool.large, pool.given, pool.given + Headers(pool.large), pool.heap.mem,
      Region(a, n));
  }

  lemma {:induction false} GivenMapped(live: set<Region>, blocks: seq<Block>, large: seq<Large>, given: seq<Region>,
      held: seq<Region>, mem: map<nat, Byte>, s: Region)
    requires Owns(live, blocks, large) && Placed(blocks, large, held) && given <= held && BelowEnds(blocks)
    requires forall r <- live, x: nat | r.Has(x) :: x in mem
    requires s in given
    ensures forall x :: s.addr <= x < s.End() ==> x in mem
  {
    forall x | s.addr <= x < s.End() ensures x in mem {
      assert s in held;
      if i: nat :| Inside(blocks, i, s) {
        assert blocks[i].Extent() in live && blocks[i].Extent().Has(x);
      } else {
        var k: nat :| IsLarge(large, k, s);
        assert s in live && s.Has(x);
      }
    }
  }

  /** memcpy */
  method Memcpy(heap: Heap, dst: nat, src: nat, n: nat)
    requires heap.Valid() && forall x :: dst <= x < dst + n ==> x in heap.mem
    requires dst + n <= src || src + n <= dst
    modifies heap`mem
    ensures heap.Valid()
    ensures Bytes(heap.mem, dst, n) == old(Bytes(heap.mem, src, n))
    ensures forall given: seq<Region> :: (forall s <- given :: s.size > 0 ==> Disjoint(s, Region(dst, n))) ==>
      Untouched(given, old(heap.mem), heap.mem)
  {
    hide LiveApart, Counts;
    var mem := heap.mem;
    heap.mem := mem + map x: nat | dst <= x < dst + n :: From(mem, src, dst, x);
    CopiedBytes(mem, heap.mem, dst, src, n);
  }

  /** Everything `given` but `r` is still there. */
  ghost predicate Others(given: seq<Region>, given': seq<Region>, r: Region) {
    forall s <- given :: s != r ==> s in given'
  }

  /** Everything `given` but `r` is still there, with its bytes. */
  ghost predicate Spared(given: seq<Region>, given': seq<Region>, r: Region, mem: map<nat, Byte>, mem': map<nat,
      Byte>) {
    && Others(given, given', r)
    && forall s, x: nat {:trigger s in given, s.Has(x)} :: s in given && s != r && s.Has(x) ==>
      Get(mem', x) == Get(mem, x)
  }

  lemma SparedSame(given: seq<Region>, r: Region, mem: map<nat, Byte>)
    ensures Spared(given, given, r, mem, mem)
  {
  }

  lemma OthersSpared(given: seq<Region>, given': seq<Region>, r: Region, mem: map<nat, Byte>, mem': map<nat, Byte>)
    requires Others(given, given', r) && (mem' == mem || Untouched(given, mem, mem'))
    ensures Spared(given, given', r, mem, mem')
  {
  }

  lemma BytesPrefix(mem: map<nat, Byte>, a: nat, n: nat, n': nat)
    requires n <= n'
    ensures Bytes(mem, a, n) <= Bytes(mem, a, n')
  {
  }

  function Patch(bytes: seq<Byte>, start: nat, x: nat): Byte
    requires start <= x < start + |bytes|
  {
    bytes[x - start]
  }

  lemma {:induction false} PatchedBytes(mem: map<nat, Byte>, mem': map<nat, Byte>, a: nat, at: nat, bytes: seq<Byte>)
    requires forall x: nat ::
      Get(mem', x) == if a + at <= x < a + at + |bytes| then Patch(bytes, a + at, x) else Get(mem, x)
    ensures Bytes(mem', a, at + |bytes|) == Bytes(mem, a, at + |bytes|)[..at] + bytes
  {
    var s, t := Bytes(mem', a, at + |bytes|), Bytes(mem, a, at + |bytes|)[..at] + bytes;
    assert forall k :: 0 <= k < |s| ==> s[k] == t[k];
  }

  /** Writing inside one allocation spares all the others. */
  lemma {:induction false} WriteSpared(given: seq<Region>, r: Region, mem: map<nat, Byte>, mem': map<nat, Byte>,
      start: nat, n: nat)
    requires forall s, t :: s in given && t in given && s != t && s.size > 0 && t.size > 0 ==> Disjoint(s, t)
    requires r in given && r.size > 0 && r.addr <= start && start + n <= r.End()
    requires forall x: nat :: !(start <= x < start + n) ==> Get(mem', x) == Get(mem, x)
    ensures Spared(given, given, r, mem, mem')
  {
  }

  class Arr {
    const pool: Pool
    const addr: nat               // where the ngx_array_t lies
    const size: nat
    var elts: nat
    var nelts: nat
    var nalloc: nat

    function Room(): Region
      reads this
    {
      Region(elts, Bulk(size, nalloc))
    }

    ghost predicate Valid()
      reads this, pool, pool.heap
    {
      && pool.Valid() && size >= 1 && nalloc >= 1 && nelts <= nalloc && Room() != Region(addr, ARRAY_HEADER)
      && Room() in pool.given && Region(addr, ARRAY_HEADER) in pool.given
    }

    /** The bytes of the elements in use. */
    ghost function Contents(): (s: seq<Byte>)
      reads this, pool, pool.heap
      ensures |s| == Bulk(size, nelts)
    {
      Bytes(pool.heap.mem, elts, Bulk(size, nelts))
    }

    /** ngx_array_create */
    constructor (pool: Pool, n: nat, size: nat)
      requires pool.Valid() && n >= 1 && size >= 1
      modifies pool`blocks, pool`current, pool`given, pool`large, pool.heap
      ensures Valid() && this.pool == pool && this.size == size && nelts == 0 && nalloc == n && Contents() == []
      ensures Untouched(old(pool.given), old(pool.heap.mem), pool.heap.mem)
      ensures Room() !in old(pool.given) && Region(addr, ARRAY_HEADER) !in old(pool.given)
      ensures old(pool.given) <= pool.given
    {
      hide BlocksOk, Owns, Placed, Listed, Headers, LiveApart, Counts, Untouched, Bulk;
      ghost var given, mem := pool.given, pool.heap.mem;
      Times(size, n, 0);
      var a := Take(pool, ARRAY_HEADER);
      ghost var mem1 := pool.heap.mem;
      var e := Take(pool, Bulk(size, n));
      UntouchedOn(given, given + [Region(a, ARRAY_HEADER)], mem, mem1, pool.heap.mem);
      this.pool, addr, this.size := pool, a, size;
      elts, nelts, nalloc := e, 0, n;
    }

    /** The array ends at the first block's fill mark, and there is room for `n` more elements. */
    predicate AtTail(n: nat)
      reads this, pool
    {
      && pool.blocks != []
      && elts + Bulk(size, nalloc) == pool.blocks[0].last && pool.blocks[0].last + Bulk(size, n) <= pool.blocks[0].end
    }

    /** Growth in place: the fill mark and the capacity move up together. */
    method Stretch(n: nat)
      requires Valid() && AtTail(n)
      modifies this`nalloc, pool`blocks, pool`given
      ensures Valid() && nalloc == old(nalloc) + n
      ensures Others(old(pool.given), pool.given, old(Room())) && (n > 0 ==> Room() !in old(pool.given))
      ensures pool.blocks[0].last == old(pool.blocks[0].last) + Bulk(size, n)
    {
      hide BlocksOk, Owns, Placed, Listed, Headers, LiveApart, Counts, Bulk;
      ghost var given, room := pool.given, Room();
      ghost var i :| 0 <= i < |given| && given[i] == room;
      Times(size, nalloc, n);
      Times(size, n, 0);
      HeldApart(pool.blocks, pool.large, given, given + Headers(pool.large));
      GrowPlaced(pool.heap.live, pool.blocks, pool.size, pool.large, given, i, Bulk(size, n));
      CountsFilled(pool.blocks, 0, pool.blocks[0].last + Bulk(size, n), pool.current, pool.since);
      pool.blocks := pool.blocks[0 := pool.blocks[0].(last := pool.blocks[0].last + Bulk(size, n))];
      pool.given := pool.given[i := Region(room.addr, room.size + Bulk(size, n))];
      nalloc := nalloc + n;
      OthersStay(given, i, pool.given[i]);
      GrownNew(given, room, pool.given[i]);
    }

    /** Growth by copying: a new allocation of `capacity` elements takes over the first `nelts`. */
    method Relocate(capacity: nat)
      requires Valid() && capacity >= nalloc
      modifies this`elts, this`nalloc, pool`blocks, pool`current, pool`given, pool`large, pool.heap
      ensures Valid() && nalloc == capacity && Contents() == old(Contents())
      ensures Untouched(old(pool.given), old(pool.heap.mem), pool.heap.mem)
      ensures Others(old(pool.given), pool.given, old(Room())) && Room() !in old(pool.given)
    {
      hide BlocksOk, Owns, Placed, Listed, Headers, LiveApart, Counts, Untouched, Bulk;
      ghost var given, mem, room := pool.given, pool.heap.mem, Room();
      Times(size, nalloc, capacity - nalloc);
      Times(size, nelts, nalloc - nelts);
      Times(size, nelts, capacity - nelts);
      Times(size, nalloc, 0);
      var target := Take(pool, Bulk(size, capacity));
      UntouchedBytes(given, mem, pool.heap.mem, room, Bulk(size, nelts));
      ghost var mem1 := pool.heap.mem;
      assert Disjoint(room, Region(target, Bulk(size, capacity)));
      Memcpy(pool.heap, target, elts, Bulk(size, nelts));
      assert Untouched(given, mem1, pool.heap.mem);
      UntouchedOn(given, given, mem, mem1, pool.heap.mem);
      elts, nalloc := target, capacity;
    }

    /** The two ways to grow: in place at the pool's tail, or by copying to `capacity` elements. */
    method Grow(n: nat, capacity: nat)
      requires Valid() && n >= 1 && capacity >= nelts + n && capacity >= nalloc && nelts + n > nalloc
      modifies this`elts, this`nalloc, pool`blocks, pool`current, pool`given, pool`large, pool.heap
      ensures Valid() && nalloc == (if old(AtTail(n)) then old(nalloc) + n else capacity)
      ensures Contents() == old(Contents())
      ensures Spared(old(pool.given), pool.given, old(Room()), old(pool.heap.mem), pool.heap.mem)
      ensures Room() !in old(pool.given)
    {
      hide Untouched, Others, Spared, LiveApart, Counts, BlocksOk, Owns, Placed, Listed, Headers, Bytes, Bulk;
      ghost var given, mem, room := pool.given, pool.heap.mem, Room();
      var last, end := pool.blocks[0].last, pool.blocks[0].end;
      if elts + Bulk(size, nalloc) == last && last + Bulk(size, n) <= end {
        Stretch(n);
      } else {
        Relocate(capacity);
      }
      OthersSpared(given, pool.given, room, mem, pool.heap.mem);
    }

    /** ngx_array_push: room for one more element, whose address is returned. */
    method Push() returns (elt: nat)
      requires Valid()
      modifies this`elts, this`nelts, this`nalloc, pool`blocks, pool`current, pool`given, pool`large, pool.heap
      ensures Valid() && nelts == old(nelts) + 1 && elt == elts + Bulk(size, old(nelts))
      ensures nalloc ==
        if old(nelts < nalloc) then old(nalloc)
        else if old(AtTail(1)) then old(nalloc) + 1
        else 2 * old(nalloc)
      ensures old(Contents()) <= Contents()
      ensures Spared(old(pool.given), pool.given, old(Room()), old(pool.heap.mem), pool.heap.mem)
      ensures Room() == old(Room()) || Room() !in old(pool.given)
    {
      hide Spared, LiveApart, Counts, BlocksOk, Owns, Placed, Listed, Headers, Bytes, AtTail, Bulk;
      SparedSame(pool.given, Room(), pool.heap.mem);
      if nelts == nalloc {
        Grow(1, 2 * nalloc);
      }
      elt := elts + Bulk(size, nelts);
      Times(size, nelts, 1);
      BytesPrefix(pool.heap.mem, elts, Bulk(size, nelts), Bulk(size, nelts + 1));
      nelts := nelts + 1;
    }

    /** ngx_array_push_n: room for `n` more elements at once. */
    method PushN(n: nat) returns (elt: nat)
      requires Valid()
      modifies this`elts, this`nelts, this`nalloc, pool`blocks, pool`current, pool`given, pool`large, pool.heap
      ensures Valid() && nelts == old(nelts) + n && elt == elts + Bulk(size, old(nelts))
      ensures nalloc == if old(nelts) + n <= old(nalloc) then old(nalloc) else if old(AtTail(n)) then old(nalloc) + n
        else 2 * if n >= old(nalloc) then n else old(nalloc)
      ensures old(Contents()) <= Contents()
      ensures Spared(old(pool.given), pool.given, old(Room()), old(pool.heap.mem), pool.heap.mem)
      ensures Room() == old(Room()) || Room() !in old(pool.given)
    {
      hide Spared, LiveApart, Counts, BlocksOk, Owns, Placed, Listed, Headers, Bytes, AtTail, Bulk;
      SparedSame(pool.given, Room(), pool.heap.mem);
      if nelts + n > nalloc {
        Grow(n, 2 * if n >= nalloc then n else nalloc);
      }
      elt := elts + Bulk(size, nelts);
      Times(size, nelts, n);
      BytesPrefix(pool.heap.mem, elts, Bulk(size, nelts), Bulk(size, nelts + n));
      nelts := nelts + n;
    }

    /** The caller writes the last bytes of the elements in use. */
    method Fill(at: nat, bytes: seq<Byte>)
      requires Valid() && at + |bytes| == Bulk(size, nelts)
      modifies pool.heap`mem
      ensures Valid() && Contents() == old(Contents())[..at] + bytes
      ensures Spared(pool.given, pool.given, Room(), old(pool.heap.mem), pool.heap.mem)
    {
      hide LiveApart, Counts, BlocksOk, Owns, Placed, Listed, Headers, Others, Bulk;
      var mem, start := pool.heap.mem, elts + at;
      Times(size, nelts, nalloc - nelts);
      Times(size, nalloc, 0);
      pool.heap.mem := mem + map x: nat | start <= x < start + |bytes| :: Patch(bytes, start, x);
      PatchedBytes(mem, pool.heap.mem, elts, at, bytes);
      HeldApart(pool.blocks, pool.large, pool.given, pool.given + Headers(pool.large));
      WriteSpared(pool.given, Room(), mem, pool.heap.mem, start, |bytes|);
    }

    /** Push, and write the new element. */
    method Append(bytes: seq<Byte>)
      requires Valid() && |bytes| == size
      modifies this`elts, this`nelts, this`nalloc, pool`blocks, pool`current, pool`given, pool`large, pool.heap
      ensures Valid() && Contents() == old(Contents()) + bytes
      ensures Spared(old(pool.given), pool.given, old(Room()), old(pool.heap.mem), pool.heap.mem)
      ensures Room() == old(Room()) || Room() !in old(pool.given)
    {
      hide Spared, LiveApart, Counts, BlocksOk, Owns, Placed, Listed, Headers, Bytes, Bulk;
      ghost var given, mem, room, c := pool.given, pool.heap.mem, Room(), Contents();
      Times(size, nelts, 1);
      var elt := Push();
      ghost var given1, mem1, room1 := pool.given, pool.heap.mem, Room();
      Fill(elt - elts, bytes);
      SparedOn(given, given1, room, room1, mem, mem1, pool.heap.mem);
    }

    /** Push several elements at once, and write them. */
    method AppendN(n: nat, bytes: seq<Byte>)
      requires Valid() && |bytes| == Bulk(size, n)
      modifies this`elts, this`nelts, this`nalloc, pool`blocks, pool`current, pool`given, pool`large, pool.heap
      ensures Valid() && Contents() == old(Contents()) + bytes
      ensures Spared(old(pool.given), pool.given, old(Room()), old(pool.heap.mem), pool.heap.mem)
      ensures Room() == old(Room()) || Room() !in old(pool.given)
    {
      hide Spared, LiveApart, Counts, BlocksOk, Owns, Placed, Listed, Headers, Bytes, Bulk;
      ghost var given, mem, room, c := pool.given, pool.heap.mem, Room(), Contents();
      Times(size, nelts, n);
      var elt := PushN(n);
      ghost var given1, mem1, room1 := pool.given, pool.heap.mem, Room();
      Fill(elt - elts, bytes);
      SparedOn(given, given1, room, room1, mem, mem1, pool.heap.mem);
    }

    /** The fill mark once the elements, and then the array itself, are given back if they end at it. */
    function DroppedTo(last: nat): nat
      reads this
    {
      var last := if elts + Bulk(size, nalloc) == last then elts else last;
      if addr + ARRAY_HEADER == last then addr else last
    }

    /** ngx_array_destroy */
    method Destroy()
      requires Valid()
      modifies pool`blocks, pool`given
      ensures pool.Valid() && pool.blocks[0].last == DroppedTo(old(pool.blocks[0].last))
      ensures forall s <- old(pool.given) :: s != Room() && s != Region(addr, ARRAY_HEADER) ==> s in pool.given
    {
      hide BlocksOk, Owns, Placed, Listed, Headers, LiveApart, Counts, Bulk, Without;
      assert Region(addr, ARRAY_HEADER) in pool.given;
      Times(size, nalloc, 0);
      FirstExtent(pool.blocks, pool.size);
      if elts + Bulk(size, nalloc) == pool.blocks[0].last {
        LowerMark(pool, Room());
      }
      FirstExtent(pool.blocks, pool.size);
      if addr + ARRAY_HEADER == pool.blocks[0].last {
        LowerMark(pool, Region(addr, ARRAY_HEADER));
      }
    }
  }

  /** The first block's fill mark comes down to the start of the allocation `r` that ends at it. */
  method LowerMark(pool: Pool, r: Region)
    requires pool.Valid() && r in pool.given && r.size > 0 && r.End() == pool.blocks[0].last
    modifies pool`blocks, pool`given
    ensures pool.Valid() && pool.blocks[0].last == r.addr
    ensures forall s <- old(pool.given) :: s != r ==> s in pool.given
  {
    hide BlocksOk, Owns, Placed, Listed, Headers, LiveApart, Counts;
    FirstExtent(pool.blocks, pool.size);
    ghost var i :| 0 <= i < |pool.given| && pool.given[i] == r;
    DropPlaced(pool.heap.live, pool.blocks, pool.size, pool.large, pool.given, i);
    WithoutKeeps(pool.given, i);
    CountsFilled(pool.blocks, 0, r.addr, pool.current, pool.since);
    pool.blocks := pool.blocks[0 := pool.blocks[0].(last := r.addr)];
    pool.given := Without(pool.given, i);
  }

  lemma {:induction false} WithoutKeeps(given: seq<Region>, i: nat)
    requires i < |given|
    ensures forall s <- given :: s != given[i] ==> s in Without(given, i)
  {
    forall s | s in given && s != given[i] ensures s in Without(given, i) {
      var k :| 0 <= k < |given| && given[k] == s;
      assert Without(given, i)[if k < i then k else k - 1] == s;
    }
  }

  lemma {:induction false} CopiedBytes(mem: map<nat, Byte>, mem': map<nat, Byte>, dst: nat, src: nat, n: nat)
    requires forall x: nat :: Get(mem', x) == if dst <= x < dst + n then From(mem, src, dst, x) else Get(mem, x)
    ensures Bytes(mem', dst, n) == Bytes(mem, src, n)
  {
    assert forall k :: 0 <= k < n ==> Bytes(mem', dst, n)[k] == Bytes(mem, src, n)[k];
  }

  lemma UntouchedOn(given: seq<Region>, given': seq<Region>, mem: map<nat, Byte>, mem1: map<nat, Byte>, mem2: map<nat,
      Byte>)
    requires given <= given' && Untouched(given, mem, mem1) && Untouched(given', mem1, mem2)
    ensures Untouched(given, mem, mem2)
  {
    assert forall s <- given :: s in given';
  }

  /** A push spares what it does not own; so does the write that follows. */
  lemma {:induction false} SparedOn(given: seq<Region>, given1: seq<Region>, r: Region, r1: Region, mem: map<nat, Byte>,
      mem1: map<nat, Byte>, mem2: map<nat, Byte>)
    requires Spared(given, given1, r, mem, mem1) && Spared(given1, given1, r1, mem1, mem2)
    requires r1 !in given || r1 == r
    ensures Spared(given, given1, r, mem, mem2)
  {
  }

  /** A grown allocation was not there before. */
  lemma {:induction false} GrownNew(given: seq<Region>, r: Region, r': Region)
    requires forall s, t :: s in given && t in given && s != t && s.size > 0 && t.size > 0 ==> Disjoint(s, t)
    requires r in given && r.size > 0 && r'.addr == r.addr && r'.size >= r.size
    ensures r' == r || r' !in given
  {
  }

  lemma OthersStay(given: seq<Region>, i: nat, r: Region)
    requires i < |given|
    ensures Others(given, given[i := r], given[i]) && r in given[i := r]
  {
    forall s | s in given && s != given[i] ensures s in given[i := r] {
      var k :| 0 <= k < |given| && given[k] == s;
      assert given[i := r][k] == s;
    }
    assert given[i := r][i] == r;
  }

  // ----- many arrays on one pool

  /** The bytes of a list of elements. */
  function Flat(elems: seq<seq<Byte>>): seq<Byte> {
    if elems == [] then [] else Flat(elems[..|elems| - 1]) + elems[|elems| - 1]
  }

  lemma {:induction false} FlatLength(elems: seq<seq<Byte>>, size: nat)
    requires forall e <- elems :: |e| == size
    ensures |Flat(elems)| == Bulk(size, |elems|)
  {
    hide Bulk;
    Times(size, |elems|, 0);
    if elems != [] {
      FlatLength(elems[..|elems| - 1], size);
      Times(size, |elems| - 1, 1);
    }
  }

  lemma {:induction false} FlatJoins(s: seq<seq<Byte>>, t: seq<seq<Byte>>)
    ensures Flat(s + t) == Flat(s) + Flat(t)
  {
    if t == [] {
      assert s + t == s;
    } else {
      var t' := t[..|t| - 1];
      FlatJoins(s, t');
      assert (s + t)[..|s + t| - 1] == s + t';
    }
  }

  /** Element `i` is found at index `i`: the bytes determine the list. */
  lemma {:induction false} ElementAt(elems: seq<seq<Byte>>, size: nat, i: nat)
    requires (forall e <- elems :: |e| == size) && i < |elems|
    ensures Bulk(size, i) + size <= |Flat(elems)| && Flat(elems)[Bulk(size, i)..Bulk(size, i) + size] == elems[i]
  {
    FlatLength(elems[..i], size);
    assert elems == elems[..i] + [elems[i]] + elems[i + 1..];
    FlatJoins(elems[..i] + [elems[i]], elems[i + 1..]);
    FlatJoins(elems[..i], [elems[i]]);
    assert Flat([elems[i]]) == elems[i];
  }

  datatype Act =
    | Push(which: nat, elem: seq<Byte>)
    | PushN(which: nat, elems: seq<seq<Byte>>)
    | Other(n: nat, align: bool)

  /** What lists the arrays stand for after one act. */
  function Done(lists: seq<seq<seq<Byte>>>, act: Act): seq<seq<seq<Byte>>> {
    match act
    case Push(k, elem) => if k < |lists| then lists[k := lists[k] + [elem]] else lists
    case PushN(k, elems) => if k < |lists| then lists[k := lists[k] + elems] else lists
    case Other(_, _) => lists
  }

  function AllDone(lists: seq<seq<seq<Byte>>>, acts: seq<Act>): seq<seq<seq<Byte>>> {
    if acts == [] then lists else Done(AllDone(lists, acts[..|acts| - 1]), acts[|acts| - 1])
  }

  predicate Fits(arrs: seq<Arr>, act: Act) {
    match act
    case Push(k, elem) => k < |arrs| && |elem| == arrs[k].size
    case PushN(k, elems) => k < |arrs| && forall e <- elems :: |e| == arrs[k].size
    case Other(_, _) => true
  }

  /** The arrays live side by side on one pool: none holds memory that another holds. */
  ghost predicate SideBySide(arrs: seq<Arr>, pool: Pool)
    reads arrs, pool, pool.heap
  {
    && (forall i :: 0 <= i < |arrs| ==> arrs[i].pool == pool && arrs[i].Valid())
    && (forall i, j :: 0 <= i < |arrs| && 0 <= j < |arrs| && i != j ==>
      && arrs[i] != arrs[j] && arrs[i].Room() != arrs[j].Room() && arrs[i].Room() != Region(arrs[j].addr, ARRAY_HEADER))
  }

  /** The arrays hold exactly these lists of elements. */
  ghost predicate Hold(arrs: seq<Arr>, pool: Pool, lists: seq<seq<seq<Byte>>>)
    reads arrs, pool, pool.heap
  {
    && |lists| == |arrs|
    && forall i :: 0 <= i < |arrs| ==>
      Bytes(pool.heap.mem, arrs[i].elts, Bulk(arrs[i].size, arrs[i].nelts)) == Flat(lists[i])
  }

  /** What is spared keeps its elements. */
  lemma {:induction false} SparedBytes(given: seq<Region>, given': seq<Region>, r: Region, mem: map<nat, Byte>,
      mem': map<nat, Byte>, a: nat, size: nat, n: nat, m: nat)
    requires Spared(given, given', r, mem, mem') && Region(a, Bulk(size, m)) in given && Region(a, Bulk(size, m)) != r
    requires n <= m
    ensures Region(a, Bulk(size, m)) in given' && Bytes(mem', a, Bulk(size, n)) == Bytes(mem, a, Bulk(size, n))
  {
    hide Bulk;
    var s := Region(a, Bulk(size, m));
    Times(size, n, m - n);
    forall x: nat | a <= x < a + Bulk(size, n) ensures Get(mem', x) == Get(mem, x) {
      assert s.Has(x);
    }
    assert forall k :: 0 <= k < Bulk(size, n) ==> Bytes(mem', a, Bulk(size, n))[k] == Bytes(mem, a, Bulk(size, n))[k];
  }

  lemma FlatOne(elem: seq<Byte>)
    ensures Flat([elem]) == elem
  {
    assert [elem][..0] == [];
  }

  /** One append by array `k`: the arrays stay side by side, and only its list grows. */
  method AppendStep(pool: Pool, arrs: seq<Arr>, ghost lists: seq<seq<seq<Byte>>>, k: nat, elems: seq<seq<Byte>>,
      one: bool)
    requires SideBySide(arrs, pool) && Hold(arrs, pool, lists)
    requires k < |arrs| && (forall e <- elems :: |e| == arrs[k].size) && (one ==> |elems| == 1)
    modifies arrs[k], pool`blocks, pool`current, pool`given, pool`large, pool.heap
    ensures pool.Valid() && SideBySide(arrs, pool) && Hold(arrs, pool, lists[k := lists[k] + elems])
  {
    hide BlocksOk, Owns, Placed, Listed, Headers, LiveApart, Counts, Bulk, Spared, Bytes, Flat;
    ghost var given, mem, room := pool.given, pool.heap.mem, arrs[k].Room();
    FlatJoins(lists[k], elems);
    if one {
      FlatOne(elems[0]);
      assert elems == [elems[0]];
      arrs[k].Append(elems[0]);
    } else {
      FlatLength(elems, arrs[k].size);
      arrs[k].AppendN(|elems|, Flat(elems));
    }
    forall i | 0 <= i < |arrs| && i != k
      ensures arrs[i].Valid() && arrs[i].Contents() == Flat(lists[i]) && arrs[i].Room() == old(arrs[i].Room())
    {
      var a := arrs[i];
      SparedBytes(given, pool.given, room, mem, pool.heap.mem, a.elts, a.size, a.nelts, a.nalloc);
      SparedHeader(given, pool.given, room, mem, pool.heap.mem, Region(a.addr, ARRAY_HEADER));
    }
  }

  lemma SparedHeader(given: seq<Region>, given': seq<Region>, r: Region, mem: map<nat, Byte>, mem': map<nat, Byte>,
      s: Region)
    requires Spared(given, given', r, mem, mem') && s in given && s != r
    ensures s in given'
  {
  }

  /** Another allocation on the same pool. */
  method TakeStep(pool: Pool, arrs: seq<Arr>, ghost lists: seq<seq<seq<Byte>>>, n: nat, align: bool)
    requires pool.Valid() && SideBySide(arrs, pool) && Hold(arrs, pool, lists)
    modifies pool`blocks, pool`current, pool`given, pool`large, pool.heap
    ensures pool.Valid() && SideBySide(arrs, pool) && Hold(arrs, pool, lists)
  {
    hide BlocksOk, Owns, Placed, Listed, Headers, LiveApart, Counts, Bulk, Kept, Bytes, Flat, Untouched;
    ghost var given, mem := pool.given, pool.heap.mem;
    OrderedEnds(pool.blocks, pool.size);
    ghost var live, blocks, large, held := pool.heap.live, pool.blocks, pool.large, pool.given + Headers(pool.large);
    var m;
    ghost var examined;
    m, examined := pool.Alloc(n, align);
    KeptUntouched(live, blocks, large, given, held, mem, pool.heap.mem);
    forall i | 0 <= i < |arrs|
      ensures arrs[i].Valid() && arrs[i].Contents() == Flat(lists[i]) && arrs[i].Room() == old(arrs[i].Room())
    {
      var a := arrs[i];
      Times(a.size, a.nelts, a.nalloc - a.nelts);
      UntouchedBytes(given, mem, pool.heap.mem, a.Room(), Bulk(a.size, a.nelts));
    }
  }

  lemma HeldLength(arrs: seq<Arr>, pool: Pool, lists: seq<seq<seq<Byte>>>)
    requires Hold(arrs, pool, lists)
    ensures |lists| == |arrs|
  {
  }

  /** Over any interleaving of pushes on several arrays and other allocations from their pool, every element
      keeps its index and value: the arrays hold what the acts make of the lists they held. */
  method Play(pool: Pool, arrs: seq<Arr>, ghost lists: seq<seq<seq<Byte>>>, acts: seq<Act>)
    requires pool.Valid() && SideBySide(arrs, pool) && Hold(arrs, pool, lists)
    requires forall act <- acts :: Fits(arrs, act)
    modifies arrs, pool`blocks, pool`current, pool`given, pool`large, pool.heap
    ensures pool.Valid() && SideBySide(arrs, pool) && Hold(arrs, pool, AllDone(lists, acts))
  {
    hide SideBySide, Hold, Flat, Bulk;
    for n := 0 to |acts|
      invariant pool.Valid() && SideBySide(arrs, pool) && Hold(arrs, pool, AllDone(lists, acts[..n]))
    {
      ghost var now := AllDone(lists, acts[..n]);
      HeldLength(arrs, pool, now);
      assert acts[..n + 1][..n] == acts[..n];
      assert Fits(arrs, acts[n]);
      match acts[n] {
        case Push(k, elem) => AppendStep(pool, arrs, now, k, [elem], true);
        case PushN(k, elems) => AppendStep(pool, arrs, now, k, elems, false);
        case Other(m, align) => TakeStep(pool, arrs, now, m, align);
      }
    }
    assert acts[..|acts|] == acts;
  }
}
