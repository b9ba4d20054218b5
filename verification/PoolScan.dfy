/** How long the scan for a small allocation becomes after a reset: a run that reaches the bound. */
module PoolScan {

  import opened PoolParts
  import opened Pools

  /** No block from `from` on has room for `n` bytes. */
  ghost predicate NoneHasRoom(blocks: seq<Block>, from: nat, n: nat) {
    forall i :: from <= i < |blocks| ==> !HasRoom(blocks[i], n, true)
  }

  /** The bytes above the fill marks. */
  ghost function Spare(blocks: seq<Block>): nat {
    if blocks == [] then 0
    else Spare(blocks[1..]) + if blocks[0].last <= blocks[0].end then blocks[0].end - blocks[0].last else 0
  }

  lemma {:induction false} SpareLess(blocks: seq<Block>, p: nat, last: nat)
    requires p < |blocks| && blocks[p].last < last <= blocks[p].end
    ensures Spare(blocks[p := blocks[p].(last := last)]) < Spare(blocks)
  {
    var blocks' := blocks[p := blocks[p].(last := last)];
    if p > 0 {
      SpareLess(blocks[1..], p - 1, last);
      assert blocks'[1..] == blocks[1..][p - 1 := blocks[p].(last := last)];
    } else {
      assert blocks'[1..] == blocks[1..];
    }
  }

  lemma CurrentIs(blocks: seq<Block>, current: nat, since: nat)
    requires Counts(blocks, current, since)
    ensures current == (if |blocks| < since + 6 then 0 else |blocks| - 7) && current < |blocks|
  {
  }

  /** A request that finds room takes it, and adds no block. */
  method TakeRoom(pool: Pool, ghost p: nat)
    requires pool.Valid() && FirstRoom(pool.blocks, pool.current, pool.max, true, p) && p < |pool.blocks|
    modifies pool`blocks, pool`current, pool`given, pool`large, pool.heap
    ensures pool.Valid() && |pool.blocks| == |old(pool.blocks)| && Spare(pool.blocks) < old(Spare(pool.blocks))
  {
    hide Owns, Placed, Listed, Headers, LiveApart, Counts, Kept, Extents, Objects, Spare, Align;
    ghost var blocks, n, from := pool.blocks, pool.max, pool.current;
    var m;
    ghost var examined;
    m, examined := pool.Alloc(pool.max, true);
    ghost var q: nat :| FirstRoom(blocks, from, n, true, q) && Took(blocks, pool.blocks, pool.size, q, m, n, true);
    assert q <= p && p <= q;
    SpareLess(blocks, p, m + n);
  }

  /** Requests of the largest size until no block from `current` on has room for another. */
  method FillUp(pool: Pool)
    requires pool.Valid()
    modifies pool`blocks, pool`current, pool`given, pool`large, pool.heap
    ensures pool.Valid() && |pool.blocks| == |old(pool.blocks)| && NoneHasRoom(pool.blocks, pool.current, pool.max)
  {
    hide BlocksOk, Owns, Placed, Listed, Headers, LiveApart, Counts, Kept, Extents, Objects, HasRoom, Spare;
    CurrentIs(pool.blocks, pool.current, pool.since);
    var p: nat;
    var m, found;
    ghost var examined;
    p, m, found, examined := pool.Scan(pool.max, true);
    while found
      invariant pool.Valid() && |pool.blocks| == |old(pool.blocks)|
      invariant FirstRoom(pool.blocks, pool.current, pool.max, true, p) && (found <==> p < |pool.blocks|)
      decreases Spare(pool.blocks)
    {
      TakeRoom(pool, p);
      CurrentIs(pool.blocks, pool.current, pool.since);
      p, m, found, examined := pool.Scan(pool.max, true);
    }
  }

  /** When no block from `current` on has room, a request examines them all and adds a block. */
  method AddOne(pool: Pool) returns (ghost examined: nat)
    requires pool.Valid() && NoneHasRoom(pool.blocks, pool.current, pool.max)
    modifies pool`blocks, pool`current, pool`given, pool`large, pool.heap
    ensures pool.Valid() && |pool.blocks| == |old(pool.blocks)| + 1
    ensures examined == |old(pool.blocks)| - old(pool.current)
  {
    hide Owns, Placed, Listed, Headers, LiveApart, Counts, Kept, Extents, Objects, HasRoom;
    ghost var blocks, n, from := pool.blocks, pool.max, pool.current;
    var m;
    m, examined := pool.Alloc(pool.max, true);
    ghost var q: nat :| FirstRoom(blocks, from, n, true, q) && Took(blocks, pool.blocks, pool.size, q, m, n, true)
      && examined == q - from + if q < |blocks| then 1 else 0;
    assert q == |blocks|;
  }

  /** And so on, `k` times. */
  method AddBlocks(pool: Pool, k: nat)
    requires pool.Valid() && NoneHasRoom(pool.blocks, pool.current, pool.max)
    modifies pool`blocks, pool`current, pool`given, pool`large, pool.heap
    ensures pool.Valid() && |pool.blocks| == |old(pool.blocks)| + k
    ensures NoneHasRoom(pool.blocks, pool.current, pool.max)
  {
    hide BlocksOk, Owns, Placed, Listed, Headers, LiveApart, Counts, Kept, Extents, Objects, NoneHasRoom;
    for j := 0 to k
      invariant pool.Valid() && |pool.blocks| == |old(pool.blocks)| + j
      invariant NoneHasRoom(pool.blocks, pool.current, pool.max)
    {
      ghost var examined;
      examined := AddOne(pool);
      FillUp(pool);
    }
  }

  /** In a pool of any size: create, fill to `m` blocks, reset, fill again and add five blocks. Then `current` is
      still the first of m + 5 blocks and none of them has room, so the next request examines them all: more than
      seven as soon as m is three. */
  method LongScan(heap: Heap, size: nat, m: nat) returns (pool: Pool)
    requires heap.Valid() && MIN_POOL_SIZE <= size < SIZE_LIMIT && size % ALIGNMENT == 0 && m >= 1
    modifies heap
    ensures pool.Valid() && pool.size == size && pool.since == m && pool.current == 0 && |pool.blocks| == m + 5
    ensures NoneHasRoom(pool.blocks, 0, pool.max)
  {
    hide BlocksOk, Owns, Placed, Listed, Headers, LiveApart, Kept, Extents, Objects, NoneHasRoom, Counts;
    pool := new Pool(heap, size);
    FillUp(pool);
    AddBlocks(pool, m - 1);
    pool.Reset();
    FillUp(pool);
    AddBlocks(pool, 5);
    CurrentIs(pool.blocks, pool.current, pool.since);
  }
}
