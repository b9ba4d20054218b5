/** ngx_palloc.c: a bump allocator over a chain of blocks, with a list of large objects. */
module Pools {

  import opened PoolParts

  function NextSlot(top: nat): (a: nat)
    ensures top < a && a % ALIGNMENT == 0
  {
    (top + ALIGNMENT) / ALIGNMENT * ALIGNMENT
  }

  function Chunk(n: nat): nat { if n == 0 then 1 else n }

  function Zero(x: nat): Byte { 0 }

  /** The system allocator: calloc gives zeroed regions that touch no live one; free takes a live one. */
  class Heap {
    var live: set<Region>
    var mem: map<nat, Byte>
    var top: nat

    ghost predicate Valid()
      reads this
    {
      && (forall r <- live :: r.End() <= top && forall x :: r.addr <= x < r.End() ==> x in mem)
      && LiveApart(live)
    }

    constructor ()
      ensures Valid() && live == {}
    {
      live, mem, top := {}, map[], 16;
    }

    /** calloc(1, n), whose region is never empty: glibc answers an empty request with a pointer of its own. */
    method Calloc(n: nat) returns (a: nat)
      requires Valid()
      modifies this
      ensures Valid() && a > 0 && a % ALIGNMENT == 0
      ensures Region(a, Chunk(n)) !in old(live) && live == old(live) + {Region(a, Chunk(n))}
      ensures forall r <- old(live) :: Disjoint(r, Region(a, Chunk(n)))
      ensures forall x <- old(mem) :: x in mem && mem[x] == if a <= x < a + Chunk(n) then 0 else old(mem)[x]
      ensures forall x :: a <= x < a + Chunk(n) ==> x in mem && mem[x] == 0
    {
      a := NextSlot(top);
      live := live + {Region(a, Chunk(n))};
      top := a + Chunk(n);
      mem := mem + map x: nat | a <= x < a + Chunk(n) :: Zero(x);
    }

    /** free */
    method Free(r: Region)
      requires Valid() && r in live
      modifies this`live
      ensures Valid() && live == old(live) - {r}
    {
      live := live - {r};
    }
  }

  class Pool {
    const heap: Heap
    var blocks: seq<Block>
    var max: nat
    var current: nat
    var large: seq<Large>
    ghost const size: nat
    ghost var given: seq<Region>   // live allocations
    ghost var since: nat           // how many blocks there were at the last reset

    /** The pool is in order when it holds the allocations `held`. */
    ghost predicate Holds(held: seq<Region>)
      reads this, heap
    {
      && heap.Valid() && BlocksOk(blocks, size) && current < |blocks|
      && max == (if size - POOL_HEADER < MAX_FROM_POOL then size - POOL_HEADER else MAX_FROM_POOL)
      && Owns(heap.live, blocks, large) && Placed(blocks, large, held)
      && Listed(large, given) && Counts(blocks, current, since)
    }

    /** What the system has given to others. */
    ghost function Others(): set<Region>
      reads this, heap
    {
      Rest(heap.live, blocks, large)
    }

    ghost predicate Valid()
      reads this, heap
    {
      Holds(given + Headers(large))
    }

    /** ngx_create_pool */
    constructor (heap: Heap, size: nat)
      requires heap.Valid() && MIN_POOL_SIZE <= size < SIZE_LIMIT && size % ALIGNMENT == 0
      modifies heap
      ensures Valid() && this.heap == heap && this.size == size
      ensures large == [] && given == [] && since == 1 && Others() == old(heap.live)
      ensures |blocks| == 1
      ensures blocks[0] == Block(blocks[0].base, blocks[0].base + POOL_HEADER, blocks[0].base + size, 0)
    {
      hide BlocksOk, Owns, Placed, Listed, Headers, LiveApart;
      var p := heap.Calloc(size);
      this.heap := heap;
      blocks := [Block(p, p + POOL_HEADER, p + size, 0)];
      max := if size - POOL_HEADER < MAX_FROM_POOL then size - POOL_HEADER else MAX_FROM_POOL;
      current, large := 0, [];
      this.size, given, since := size, [], 1;
      new;
      FirstBlock(heap.live, blocks[0], size);
    }

    /** The loop of ngx_palloc_block over the blocks from `current` on. */
    method CountFailures()
      requires BlocksOk(blocks, size) && current < |blocks|
      modifies this`blocks, this`current
      ensures |blocks| == |old(blocks)| && current < |blocks|
      ensures forall i :: 0 <= i < |blocks| ==> blocks[i] == old(blocks)[i].(failed := blocks[i].failed)
      ensures forall i :: 0 <= i < |blocks| ==>
        blocks[i].failed == Failed(old(blocks)[i], old(current) <= i < |blocks| - 1)
      ensures forall i :: old(current) <= i < |blocks| - 1 && old(blocks)[i].failed > 4 ==> current > i
      ensures current == old(current) || (old(current) < current && old(blocks)[current - 1].failed > 4)
    {
      var p := current;
      while p < |blocks| - 1
        invariant old(current) <= p <= |blocks| - 1 && |blocks| == |old(blocks)| && current < |blocks|
        invariant forall i :: 0 <= i < |blocks| ==> blocks[i] == old(blocks)[i].(failed := blocks[i].failed)
        invariant forall i :: 0 <= i < |blocks| ==> blocks[i].failed == Failed(old(blocks)[i], old(current) <= i < p)
        invariant forall i :: old(current) <= i < p && old(blocks)[i].failed > 4 ==> current > i
        invariant current == old(current) || (old(current) < current <= p && old(blocks)[current - 1].failed > 4)
      {
        var failed := blocks[p].failed;
        blocks := blocks[p := blocks[p].(failed := failed + 1)];
        if failed > 4 {
          current := p + 1;
        }
        p := p + 1;
      }
    }

    /** ngx_palloc_block: a new block of the pool's size, with `n` bytes taken. */
    method AppendBlock(n: nat) returns (m: nat, ghost counted: seq<Block>)
      requires heap.Valid() && BlocksOk(blocks, size) && current < |blocks|
      modifies this`blocks, this`current, heap
      ensures heap.Valid() && current < |counted| && m % ALIGNMENT == 0 && BLOCK_HEADER <= m
      ensures blocks == counted + [Block(m - BLOCK_HEADER, m + n, m - BLOCK_HEADER + size, 0)]
      ensures |counted| == |old(blocks)|
      ensures forall i :: 0 <= i < |counted| ==> counted[i] == old(blocks)[i].(failed := counted[i].failed)
      ensures forall i :: 0 <= i < |counted| ==>
        counted[i].failed == Failed(old(blocks)[i], old(current) <= i < |counted| - 1)
      ensures forall i :: old(current) <= i < |counted| - 1 && old(blocks)[i].failed > 4 ==> current > i
      ensures current == old(current) || (old(current) < current && old(blocks)[current - 1].failed > 4)
      ensures var r := Region(m - BLOCK_HEADER, size);
        && r !in old(heap.live) && heap.live == old(heap.live) + {r} && (forall s <- old(heap.live) :: Disjoint(s, r))
        && Kept(old(heap.live), old(heap.mem), heap.mem)
    {
      hide LiveApart, Kept, Align;
      var psize := blocks[0].end - blocks[0].base;
      var base := heap.Calloc(psize);
      CallocKept(old(heap.live), old(heap.mem), heap.mem, Region(base, psize));
      m := Align(base + BLOCK_HEADER);
      AlignStart(base);
      var b := Block(base, m + n, base + psize, 0);
      CountFailures();
      counted := blocks;
      blocks := blocks + [b];
    }

    /** The same, with what it means for the allocations. */
    method AllocBlock(n: nat, ghost held: seq<Region>) returns (m: nat)
      requires Holds(held) && n <= size - POOL_HEADER
      modifies this`blocks, this`current, heap
      ensures Holds(held + [Region(m, n)]) && m % ALIGNMENT == 0
      ensures Appended(old(blocks), blocks, size, m, n)
      ensures Kept(old(heap.live), old(heap.mem), heap.mem)
      ensures heap.live >= old(heap.live) && Others() == old(Others())
      ensures forall r <- old(heap.live) :: old(Foreign(heap.live, blocks, large, r)) ==>
        Foreign(heap.live, blocks, large, r)
    {
      hide BlocksOk, Owns, Placed, Counts, Listed, Kept, Foreign, LiveApart, Extents, Objects;
      FirstExtent(blocks, size);
      ghost var live, blocks0, current0 := heap.live, blocks, current;
      ghost var counted;
      m, counted := AppendBlock(n);
      ghost var b := Block(m - BLOCK_HEADER, m + n, m - BLOCK_HEADER + size, 0);
      SameButCounts(live, blocks0, counted, size, large, held);
      CountsKept(blocks0, counted, current0, current, since, b);
      NewBlockPlaced(live, counted, size, large, held, b, Region(m, n));
      ForeignStays(live, blocks0, counted, large, b);
      ExtentsSame(blocks0, counted);
      ExtentsMore(counted, b);
    }

    /** The loop of ngx_palloc_small: the first block from `current` on with enough room. */
    method Scan(n: nat, align: bool) returns (p: nat, m: nat, found: bool, ghost examined: nat)
      requires BlocksOk(blocks, size) && current < |blocks|
      ensures FirstRoom(blocks, current, n, align, p) && (found <==> p < |blocks|)
      ensures found ==> m == Mark(blocks[p], align) && blocks[p].last <= m && (align ==> m % ALIGNMENT == 0)
      ensures examined == p - current + if found then 1 else 0
    {
      hide BlocksOk, SizeT, HasRoom;
      p, m, examined := current, 0, 0;
      while p < |blocks|
        invariant p == current + examined <= |blocks|
        invariant forall i :: current <= i < p ==> !HasRoom(blocks[i], n, align)
      {
        examined := examined + 1;
        RoomExact(blocks, size, p, n, align);
        m := blocks[p].last;
        if align {
          m := Align(m);
        }
        if SizeT(blocks[p].end - m) >= n {
          return p, m, true, examined;
        }
        p := p + 1;
      }
      found := false;
    }

    /** ngx_palloc_small: the first block `p` from `current` on with enough room, or a new block. */
    method AllocSmall(n: nat, align: bool, ghost held: seq<Region>) returns (m: nat, ghost p: nat, ghost examined: nat)
      requires Holds(held) && n <= size - POOL_HEADER
      modifies this`blocks, this`current, heap
      ensures Holds(held + [Region(m, n)]) && (align ==> m % ALIGNMENT == 0)
      ensures FirstRoom(old(blocks), old(current), n, align, p) && Took(old(blocks), blocks, size, p, m, n, align)
      ensures examined == p - old(current) + (if p < |old(blocks)| then 1 else 0) <= ScanLimit(since)
      ensures Kept(old(heap.live), old(heap.mem), heap.mem) && heap.live >= old(heap.live) && Others() == old(Others())
      ensures forall r <- old(heap.live) :: old(Foreign(heap.live, blocks, large, r)) ==>
        Foreign(heap.live, blocks, large, r)
    {
      hide BlocksOk, Owns, Placed, Counts, Listed, Kept, Foreign, LiveApart, Extents, Objects, Appended, HasRoom;
      ScanBound(blocks, current, since);
      var i, found;
      i, m, found, examined := Scan(n, align);
      p := i;
      if found {
        KeptSame(heap.live, heap.mem);
        HadRoom(blocks[i], n, align);
        BumpPlaced(heap.live, blocks, size, large, held, i, Region(m, n));
        ForeignFilled(heap.live, blocks, large, i, m + n);
        CountsFilled(blocks, i, m + n, current, since);
        ExtentsSame(blocks, blocks[i := blocks[i].(last := m + n)]);
        blocks := blocks[i := blocks[i].(last := m + n)];
      } else {
        m := AllocBlock(n, held);
      }
    }

    /** A fresh region gets a header in the pool and goes to the front of the large list. */
    method HangLarge(p: nat, n: nat)
      requires Valid() && p > 0 && Foreign(heap.live, blocks, large, Region(p, n))
      modifies this`blocks, this`current, this`given, this`large, heap
      ensures Valid() && given == old(given) + [Region(p, n)] && Fronted(old(large), large, Region(p, n))
      ensures Kept(old(heap.live), old(heap.mem), heap.mem) && heap.live >= old(heap.live)
      ensures Others() == old(Others()) - {Region(p, n)}
    {
      hide Owns, Placed, Counts, Listed, Kept, Headers, Extents, Objects;
      ghost var r, held := Region(p, n), given + Headers(large);
      var header;
      ghost var i, examined;
      header, i, examined := AllocSmall(LARGE_HEADER, true, held);
      FrontPlaced(heap.live, blocks, size, large, held + [Region(header, LARGE_HEADER)], header, r);
      FrontOrder(blocks, large, given, header, r);
      ObjectsFront(large, Large(header, Some(r)));
      large := [Large(header, Some(Region(p, n)))] + large;
      given := given + [r];
    }

    /** ngx_palloc_large: the first of the first five list entries that is free, or a new one at the front. */
    method AllocLarge(n: nat) returns (p: nat)
      requires Valid() && n > 0
      modifies this`blocks, this`current, this`given, this`large, heap
      ensures Valid() && p % ALIGNMENT == 0
      ensures given == old(given) + [Region(p, n)] && TookIn(old(large), large, Region(p, n))
      ensures Objects(large) == old(Objects(large)) + {Region(p, n)}
      ensures Kept(old(heap.live), old(heap.mem), heap.mem) && heap.live >= old(heap.live) && Others() == old(Others())
    {
      hide Owns, Placed, Counts, Listed, Kept, Foreign, Headers, LiveApart, Extents, Objects, Fronted;
      ghost var live, mem := heap.live, heap.mem;
      p := heap.Calloc(n);
      ghost var r := Region(p, n);
      FreshForeign(live, blocks, large, r);
      CallocKept(live, mem, heap.mem, r);
      var k := 0;
      while k < |large| && k < 5
        invariant 0 <= k <= |large| && k <= 5 && forall i :: 0 <= i < k ==> large[i].alloc.Some?
      {
        if large[k].alloc.None? {
          FirstEmptyIs(large, 5, k);
          SlotPlaced(heap.live, blocks, size, large, given + Headers(large), k, r);
          ListedSlot(large, given, k, r);
          ObjectsSlot(large, k, r);
          large := large[k := large[k].(alloc := Some(Region(p, n)))];
          Moved(blocks, large, given, Headers(large), r);
          given := given + [r];
          return;
        }
        k := k + 1;
      }
      FirstEmptyIs(large, 5, k);
      ghost var mem1, large1 := heap.mem, large;
      HangLarge(p, n);
      ObjectsFronted(large1, large, r);
      KeptOn(live, live + {r}, mem, mem1, heap.mem);
    }

    /** ngx_palloc and ngx_pnalloc. `examined` counts the blocks looked at for a small request. */
    method Alloc(n: nat, align: bool) returns (m: nat, ghost examined: nat)
      requires Valid()
      modifies this`blocks, this`current, this`given, this`large, heap
      ensures Valid() && (align ==> m % ALIGNMENT == 0)
      ensures given == old(given) + [Region(m, n)]
      ensures if n <= max then large == old(large) else TookIn(old(large), large, Region(m, n))
      ensures n <= max ==> exists p: nat ::
        && FirstRoom(old(blocks), old(current), n, align, p) && Took(old(blocks), blocks, size, p, m, n, align)
        && examined == p - old(current) + (if p < |old(blocks)| then 1 else 0) <= ScanLimit(since)
      ensures Objects(large) == old(Objects(large)) + if n > max then {Region(m, n)} else {}
      ensures Kept(old(heap.live), old(heap.mem), heap.mem) && heap.live >= old(heap.live) && Others() == old(Others())
    {
      hide BlocksOk, Owns, Placed, Counts, Listed, Kept, Foreign, Headers, Extents, Objects, Took, FirstRoom, TookIn;
      examined := 0;
      if n <= max {
        ghost var p;
        m, p, examined := AllocSmall(n, align, given + Headers(large));
        Moved(blocks, large, given, Headers(large), Region(m, n));
        ListedGrows(large, given, Region(m, n));
        given := given + [Region(m, n)];
      } else {
        m := AllocLarge(n);
      }
    }

    /** ngx_pmemalign: always a large object of its own; the alignment asked for is not looked at. */
    method Memalign(n: nat, alignment: nat) returns (p: nat)
      requires Valid()
      modifies this`blocks, this`current, this`given, this`large, heap
      ensures Valid() && p % ALIGNMENT == 0
      ensures given == old(given) + [Region(p, Chunk(n))] && Fronted(old(large), large, Region(p, Chunk(n)))
      ensures Objects(large) == old(Objects(large)) + {Region(p, Chunk(n))}
      ensures Kept(old(heap.live), old(heap.mem), heap.mem) && heap.live >= old(heap.live) && Others() == old(Others())
    {
      hide Owns, Placed, Counts, Listed, Kept, Foreign, Headers, LiveApart, Extents, Objects, Fronted;
      ghost var live, mem, large1 := heap.live, heap.mem, large;
      p := heap.Calloc(n);
      ghost var r := Region(p, Chunk(n));
      FreshForeign(live, blocks, large, r);
      CallocKept(live, mem, heap.mem, r);
      ghost var mem1 := heap.mem;
      HangLarge(p, Chunk(n));
      ObjectsFronted(large1, large, r);
      KeptOn(live, live + {r}, mem, mem1, heap.mem);
    }

    /** ngx_pfree: the large object at `p` goes back to the system; anything else is declined.
        A null `p` is accepted, with no effect, as soon as the list has an empty entry. */
    method Free(p: nat) returns (ok: bool, ghost i: nat)
      requires Valid()
      modifies this`given, this`large, heap`live
      ensures Valid() && Others() == old(Others())
      ensures ok <==> exists l <- old(large) :: Matches(l, p)
      ensures if ok && p != 0 then
          && i < |old(given)| && old(given)[i].addr == p && given == Without(old(given), i)
          && old(given)[i] in old(Objects(large)) && Objects(large) == old(Objects(large)) - {old(given)[i]}
          && heap.live == old(heap.live) - {old(given)[i]}
        else given == old(given) && large == old(large) && heap.live == old(heap.live)
    {
      hide BlocksOk, Owns, Placed, Headers, LiveApart, Counts, Extents;
      i := 0;
      var k := 0;
      while k < |large|
        invariant 0 <= k <= |large|
        invariant forall j :: 0 <= j < k ==> !Matches(large[j], p)
      {
        assert large[k] in large;
        if large[k].alloc == None {
          if p == 0 {
            return true, i;
          }
        } else if large[k].alloc.value.addr == p {
          i :| 0 <= i < |given| && given[i] == large[k].alloc.value;
          OwnedLive(heap.live, blocks, large, k);
          ObjectsDrop(heap.live, blocks, large, k);
          heap.Free(large[k].alloc.value);
          FreedPlaced(old(heap.live), blocks, large, given, k, i);
          large := large[k := large[k].(alloc := None)];
          given := Without(given, i);
          return true, i;
        }
        k := k + 1;
      }
      assert forall l <- large :: !Matches(l, p);
      ok := false;
    }

    /** The loop of ngx_reset_pool and ngx_destroy_pool that frees the large objects. */
    method FreeObjects()
      requires Valid()
      modifies heap`live
      ensures heap.Valid() && heap.live == old(heap.live) - Objects(large)
    {
      hide BlocksOk, Placed, Listed, Headers, LiveApart;
      var k := 0;
      while k < |large|
        invariant 0 <= k <= |large| && heap.Valid()
        invariant heap.live == old(heap.live) - Objects(large[..k])
      {
        ObjectsNext(large, k);
        match large[k].alloc {
          case Some(r) =>
            assert r !in Objects(large[..k]);
            heap.Free(r);
          case None =>
        }
        k := k + 1;
      }
      assert large[..k] == large;
    }

    /** ngx_reset_pool, for a pool with no cleanup handlers. */
    method Reset()
      requires Valid()
      modifies this`blocks, this`current, this`given, this`large, this`since, heap`live
      ensures Valid() && given == [] && large == [] && current == 0 && since == |blocks| == |old(blocks)|
      ensures heap.live == old(heap.live) - old(Objects(large)) && Others() == old(Others())
      ensures forall i :: 0 <= i < |blocks| ==> blocks[i] == Emptied(old(blocks)[i])
    {
      hide Owns, Placed, Listed, Headers, LiveApart, Counts, Extents, Objects;
      FreeObjects();
      var k := 0;
      while k < |blocks|
        invariant 0 <= k <= |blocks| && |blocks| == |old(blocks)| && large == old(large)
        invariant heap.Valid() && heap.live == old(heap.live) - Objects(large)
        invariant forall i :: 0 <= i < |blocks| ==>
          blocks[i] == if i < k then Emptied(old(blocks)[i]) else old(blocks)[i]
      {
        blocks := blocks[k := blocks[k].(last := blocks[k].base + POOL_HEADER, failed := 0)];
        k := k + 1;
      }
      EmptiedPlaced(old(heap.live), old(blocks), blocks, size, large);
      ExtentsSame(old(blocks), blocks);
      NoObjects();
      ResetCounts(blocks);
      current, large := 0, [];
      given, since := [], |blocks|;
    }

    /** ngx_destroy_pool, for a pool with no cleanup handlers: every live large object and every block goes
        back to the system, each exactly once, and nothing else does. */
    method Destroy()
      requires Valid()
      modifies heap`live
      ensures heap.Valid() && heap.live == old(Others())
    {
      hide Placed, Listed, Headers, LiveApart;
      FreeObjects();
      var k := 0;
      while k < |blocks|
        invariant 0 <= k <= |blocks| && heap.Valid()
        invariant heap.live == old(heap.live) - Objects(large) - Extents(blocks[..k])
      {
        ExtentsNext(blocks, k);
        heap.Free(blocks[k].Extent());
        k := k + 1;
      }
      assert blocks[..k] == blocks;
    }
  }
}
