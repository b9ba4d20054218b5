/** Whole runs over a pool. */
module PoolRun {

  import opened PoolParts
  import opened Pools

  datatype Op = Palloc(n: nat) | Pnalloc(n: nat) | Pmemalign(n: nat) | Pfree(p: nat) | Reset

  /** What a call returns: an address, or whether ngx_pfree found the pointer. */
  datatype Result = Addr(a: nat) | Freed(ok: bool) | Nothing

  /** A live allocation, and whether it is an object of its own outside the blocks. */
  datatype Grant = Grant(region: Region, big: bool)

  /** The allocations still live after `op` has returned `r`; requests of more than `max` bytes are big. */
  function After(grants: seq<Grant>, op: Op, r: Result, max: nat): seq<Grant> {
    match op
    case Palloc(n) => if r.Addr? then grants + [Grant(Region(r.a, n), n > max)] else grants
    case Pnalloc(n) => if r.Addr? then grants + [Grant(Region(r.a, n), n > max)] else grants
    case Pmemalign(n) => if r.Addr? then grants + [Grant(Region(r.a, Chunk(n)), true)] else grants
    case Pfree(p) => Dropped(grants, p)
    case Reset => []
  }

  /** ngx_pfree takes back the big allocation at `p`, and only that. */
  function Dropped(grants: seq<Grant>, p: nat): seq<Grant> {
    if grants == [] then []
    else (if IsAt(grants[0], p) then [] else [grants[0]]) + Dropped(grants[1..], p)
  }

  predicate IsAt(g: Grant, p: nat) { g.big && g.region.addr == p }

  /** What the caller may expect of a result. */
  ghost predicate Answers(grants: seq<Grant>, op: Op, r: Result) {
    match op
    case Palloc(_) => r.Addr? && r.a % ALIGNMENT == 0
    case Pnalloc(_) => r.Addr?
    case Pmemalign(_) => r.Addr? && r.a % ALIGNMENT == 0
    case Pfree(p) => r.Freed? && (p != 0 ==> (r.ok <==> exists g <- grants :: IsAt(g, p)))
    case Reset => r == Nothing
  }

  function AllAfter(grants: seq<Grant>, ops: seq<Op>, rs: seq<Result>, max: nat): seq<Grant>
    requires |rs| == |ops|
  {
    if ops == [] then grants
    else
      var n := |ops| - 1;
      After(AllAfter(grants, ops[..n], rs[..n], max), ops[n], rs[n], max)
  }

  ghost function Regions(grants: seq<Grant>): seq<Region> {
    seq(|grants|, i requires 0 <= i < |grants| => grants[i].region)
  }

  ghost function Big(grants: seq<Grant>): set<Region> {
    set g | g in grants && g.big :: g.region
  }

  /** The pool's live allocations are these. */
  ghost predicate Tracks(pool: Pool, grants: seq<Grant>)
    reads pool
  {
    pool.given == Regions(grants) && Objects(pool.large) == Big(grants)
  }

  // ----- frees

  lemma {:induction false} DroppedNone(grants: seq<Grant>, p: nat)
    requires forall g <- grants :: !IsAt(g, p)
    ensures Dropped(grants, p) == grants
  {
    if grants != [] {
      DroppedNone(grants[1..], p);
    }
  }

  lemma {:induction false} DroppedOne(grants: seq<Grant>, p: nat, i: nat)
    requires i < |grants| && IsAt(grants[i], p)
    requires forall j :: 0 <= j < |grants| && j != i ==> !IsAt(grants[j], p)
    ensures Dropped(grants, p) == grants[..i] + grants[i + 1..]
  {
    if i == 0 {
      DroppedNone(grants[1..], p);
    } else {
      DroppedOne(grants[1..], p, i - 1);
      assert grants[..i] == [grants[0]] + grants[1..][..i - 1] && grants[i + 1..] == grants[1..][i..];
    }
  }

  /** In a pool in order at most one allocation starts at the address of a large object. */
  lemma {:induction false} OneAt(pool: Pool, grants: seq<Grant>, i: nat)
    requires pool.Valid() && Tracks(pool, grants) && i < |grants| && grants[i].region in Objects(pool.large)
    ensures grants[i].big
    ensures forall j :: 0 <= j < |grants| && j != i ==> !IsAt(grants[j], grants[i].region.addr)
  {
    var r, held := grants[i].region, pool.given + Headers(pool.large);
    assert r in Big(grants);
    assert r.size > 0;
    forall j | 0 <= j < |grants| && j != i && grants[j].region.size > 0 ensures grants[j].region.addr != r.addr {
      assert held[i] == r && held[j] == grants[j].region;
      assert Disjoint(held[i], held[j]) || Disjoint(held[j], held[i]);
    }
    forall j | 0 <= j < |grants| && j != i && grants[j].big ensures grants[j].region.size > 0 {
      assert grants[j] in grants && grants[j].region in Objects(pool.large);
    }
  }

  /** What giving back the large object `grants[i]` leaves. */
  lemma {:induction false} FreedOne(pool: Pool, grants: seq<Grant>, i: nat)
    requires pool.Valid() && Tracks(pool, grants) && i < |grants| && grants[i].region in Objects(pool.large)
    ensures var rest := Dropped(grants, grants[i].region.addr);
      Regions(rest) == Without(pool.given, i) && Big(rest) == Objects(pool.large) - {grants[i].region}
  {
    OneAt(pool, grants, i);
    var r := grants[i].region;
    DroppedOne(grants, r.addr, i);
    var rest := grants[..i] + grants[i + 1..];
    forall g | g in grants && g.big && g.region != r ensures g in rest {
      var j :| 0 <= j < |grants| && grants[j] == g;
      assert rest[if j < i then j else j - 1] == g;
    }
    forall g | g in rest && g.big ensures g in grants && g.region != r {
      var j :| 0 <= j < |rest| && rest[j] == g;
      assert grants[if j < i then j else j + 1] == g && !IsAt(g, r.addr);
    }
  }

  /** A pointer that no large object has is nobody's. */
  lemma {:induction false} NoneAt(pool: Pool, grants: seq<Grant>, p: nat)
    requires pool.Valid() && Tracks(pool, grants)
    ensures (exists l <- pool.large :: Matches(l, p) && l.alloc.Some?) <==> (exists g <- grants :: IsAt(g, p))
    ensures p == 0 ==> !exists g <- grants :: IsAt(g, p)
  {
    if g :| g in grants && IsAt(g, p) {
      assert g.region in Objects(pool.large);
    }
    if l :| l in pool.large && Matches(l, p) && l.alloc.Some? {
      assert l.alloc.value in Big(grants);
    }
  }

  lemma Granted(grants: seq<Grant>, g: Grant)
    ensures Regions(grants + [g]) == Regions(grants) + [g.region]
    ensures Big(grants + [g]) == Big(grants) + if g.big then {g.region} else {}
  {
    assert forall x :: x in grants + [g] <==> x in grants || x == g;
  }

  /** ngx_pfree, on the list of allocations. */
  method FreeOne(pool: Pool, p: nat, ghost grants: seq<Grant>) returns (r: Result)
    requires pool.Valid() && Tracks(pool, grants)
    modifies pool`given, pool`large, pool.heap`live
    ensures pool.Valid() && pool.Others() == old(pool.Others())
    ensures Tracks(pool, Dropped(grants, p)) && Answers(grants, Pfree(p), r)
  {
    hide Objects, Big, Dropped, IsAt, Owns, Placed, Listed, Headers, LiveApart, Counts, BlocksOk, Extents;
    NoneAt(pool, grants, p);
    forall i: nat | i < |grants| && grants[i].region in Objects(pool.large)
      ensures Regions(Dropped(grants, grants[i].region.addr)) == Without(pool.given, i)
      ensures Big(Dropped(grants, grants[i].region.addr)) == Objects(pool.large) - {grants[i].region}
    {
      FreedOne(pool, grants, i);
    }
    if !exists g <- grants :: IsAt(g, p) { DroppedNone(grants, p); }
    var ok;
    ghost var i;
    ok, i := pool.Free(p);
    r := Freed(ok);
  }

  /** One call. */
  method One(pool: Pool, op: Op, ghost grants: seq<Grant>) returns (r: Result)
    requires pool.Valid() && Tracks(pool, grants)
    modifies pool`blocks, pool`current, pool`given, pool`large, pool`since, pool.heap
    ensures pool.Valid() && pool.Others() == old(pool.Others())
    ensures Tracks(pool, After(grants, op, r, pool.max)) && Answers(grants, op, r)
  {
    hide Objects, Big, Regions, Owns, Placed, Listed, Headers, LiveApart, Counts, BlocksOk, Extents, Dropped, TookIn,
      Fronted, Took, FirstRoom, Kept;
    ghost var examined;
    match op {
      case Palloc(n) =>
        var a;
        a, examined := pool.Alloc(n, true);
        r := Addr(a);
        Granted(grants, Grant(Region(a, n), n > pool.max));
      case Pnalloc(n) =>
        var a;
        a, examined := pool.Alloc(n, false);
        r := Addr(a);
        Granted(grants, Grant(Region(a, n), n > pool.max));
      case Pmemalign(n) =>
        var a := pool.Memalign(n, 64);
        r := Addr(a);
        Granted(grants, Grant(Region(a, Chunk(n)), true));
      case Pfree(p) =>
        r := FreeOne(pool, p, grants);
      case Reset =>
        pool.Reset();
        r := Nothing;
        NothingTracked();
    }
  }

  lemma NothingTracked()
    ensures Regions([]) == [] && Big([]) == {} && Objects([]) == {}
  {
  }

  /** Any sequence of allocations, frees and resets: the pool stays in order, its live allocations are exactly those
      the calls have returned since the last reset and not taken back, the results are what they should be, and
      what the system has given to others stays theirs. */
  method Run(pool: Pool, ops: seq<Op>, ghost grants: seq<Grant>) returns (rs: seq<Result>)
    requires pool.Valid() && Tracks(pool, grants)
    modifies pool`blocks, pool`current, pool`given, pool`large, pool`since, pool.heap
    ensures pool.Valid() && pool.Others() == old(pool.Others())
    ensures |rs| == |ops| && Tracks(pool, AllAfter(grants, ops, rs, pool.max))
    ensures forall k :: 0 <= k < |ops| ==> Answers(AllAfter(grants, ops[..k], rs[..k], pool.max), ops[k], rs[k])
  {
    hide Owns, Placed, Listed, Headers, LiveApart, Counts, BlocksOk, Extents, Objects, Tracks, Answers, After;
    rs := [];
    while |rs| < |ops|
      invariant |rs| <= |ops| && pool.Valid() && pool.Others() == old(pool.Others())
      invariant Tracks(pool, AllAfter(grants, ops[..|rs|], rs, pool.max))
      invariant forall k :: 0 <= k < |rs| ==> Answers(AllAfter(grants, ops[..k], rs[..k], pool.max), ops[k], rs[k])
    {
      var n := |rs|;
      ghost var now := AllAfter(grants, ops[..n], rs, pool.max);
      var r := One(pool, ops[n], now);
      assert ops[..n + 1][..n] == ops[..n] && (rs + [r])[..n] == rs && rs[..n] == rs;
      assert forall k :: 0 <= k < n ==> (rs + [r])[..k] == rs[..k];
      rs := rs + [r];
    }
    assert ops[..|rs|] == ops;
  }

  /** A pool's whole life gives back to the system exactly what it took, and answers every call on the way. */
  method Lifetime(heap: Heap, size: nat, ops: seq<Op>) returns (rs: seq<Result>, ghost max: nat)
    requires heap.Valid() && MIN_POOL_SIZE <= size < SIZE_LIMIT && size % ALIGNMENT == 0
    modifies heap
    ensures heap.Valid() && heap.live == old(heap.live) && |rs| == |ops|
    ensures forall k :: 0 <= k < |ops| ==> Answers(AllAfter([], ops[..k], rs[..k], max), ops[k], rs[k])
  {
    hide Owns, Placed, Listed, Headers, LiveApart, Counts, BlocksOk, Extents, Objects, Answers;
    var pool := new Pool(heap, size);
    NothingTracked();
    rs := Run(pool, ops, []);
    max := pool.max;
    pool.Destroy();
  }
}
