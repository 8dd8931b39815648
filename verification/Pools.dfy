/**
 The pool allocator: eight pools of equal segments, chosen by the next power of two of a request. The size
 kept in front of a segment picks the pool that it goes back to. Sizes are 32-bit words that wrap around.
 */
module Pools {
  import opened Basics
  import Arithmetic

  // ---------------------------------------------------------------------------------------------
  // Size classes
  // ---------------------------------------------------------------------------------------------

  /** np2: the bits below the highest one are all set, and then one is added. */
  function Np2(v: bv32): bv32 {
    var a := v - 1;
    var b := a | (a >> 1);
    var c := b | (b >> 2);
    var d := c | (c >> 4);
    var e := d | (d >> 8);
    var f := e | (e >> 16);
    f + 1
  }

  predicate PowerOfTwo(p: bv32) {
    p != 0 && p & (p - 1) == 0
  }

  /** The least power of two that is not below `v`. */
  lemma Np2Least(v: bv32, p: bv32)
    requires 0 < v <= 0x8000_0000
    ensures PowerOfTwo(Np2(v)) && v <= Np2(v)
    ensures PowerOfTwo(p) && v <= p ==> Np2(v) <= p
  {
  }

  /** n21: the number of the highest bit. */
  function N21(v: bv32): nat
    decreases v
  {
    if v < 2 then 0 else 1 + N21(v >> 1)
  }

  function AtLeast16(size: bv32): bv32 {
    if size < 16 then 16 else size
  }

  const NUMBER_OF_POOLS: nat := 8
  const BLOCK_SIZE: nat := 32768
  const META: bv32 := 16

  lemma HighestBits()
    ensures N21(16) == 4 && N21(32) == 5 && N21(64) == 6 && N21(128) == 7 && N21(256) == 8
    ensures N21(512) == 9 && N21(1024) == 10 && N21(2048) == 11 && N21(4096) == 12
  {
    assert N21(1) == 0;
    assert N21(2) == 1;
    assert N21(4) == 2;
    assert N21(8) == 3;
    assert N21(16) == 4;
    assert N21(32) == 5;
    assert N21(64) == 6;
    assert N21(128) == 7;
    assert N21(256) == 8;
    assert N21(512) == 9;
    assert N21(1024) == 10;
    assert N21(2048) == 11;
  }

  lemma PoolNumber(size: bv32)
    requires size < 4096
    ensures 4 <= N21(Np2(AtLeast16(size))) <= 12
    ensures size <= 2048 ==> N21(Np2(AtLeast16(size))) <= 11
  {
    HighestBits();
    assert size <= 2048 ==> Np2(AtLeast16(size)) in {16, 32, 64, 128, 256, 512, 1024, 2048};
    assert Np2(AtLeast16(size)) in {16, 32, 64, 128, 256, 512, 1024, 2048, 4096};
  }

  /** The number of the pool for a request of `size` bytes, headers included. */
  function PoolOf(size: bv32): nat
    requires size < 4096
    ensures PoolOf(size) <= 8 && (size <= 2048 ==> PoolOf(size) < NUMBER_OF_POOLS)
  {
    PoolNumber(size);
    N21(Np2(AtLeast16(size))) - 4
  }

  /** A request together with its header. */
  function Full(size: bv32): bv32 {
    size + META
  }

  /** The bytes that a segment of a pool is there for. */
  function Capacity(pool: nat): bv32
    requires pool <= 8
  {
    [16, 32, 64, 128, 256, 512, 1024, 2048, 4096][pool]
  }

  /**
   The pool is the first whose segments have room for the request. There is none for 2049 to 4095 bytes,
   although the allocator goes on with them: the number is then that of a ninth pool.
   */
  lemma PoolIsFirstFit(size: bv32, pool: nat)
    requires size < 4096 && pool <= 8
    ensures PoolOf(size) == pool <==> size <= Capacity(pool) && (pool > 0 ==> Capacity(pool - 1) < size)
    ensures PoolOf(size) < NUMBER_OF_POOLS <==> size <= 2048
  {
    HighestBits();
    var v := AtLeast16(size);
    assert v <= 16 ==> Np2(v) == 16;
    assert 16 < v <= 32 ==> Np2(v) == 32;
    assert 32 < v <= 64 ==> Np2(v) == 64;
    assert 64 < v <= 128 ==> Np2(v) == 128;
    assert 128 < v <= 256 ==> Np2(v) == 256;
    assert 256 < v <= 512 ==> Np2(v) == 512;
    assert 512 < v <= 1024 ==> Np2(v) == 1024;
    assert 1024 < v <= 2048 ==> Np2(v) == 2048;
    assert 2048 < v ==> Np2(v) == 4096;
  }

  /** Two requests are of one class exactly when they go to one pool. */
  lemma SameClass(a: bv32, b: bv32)
    requires a < 4096 && b < 4096
    ensures Np2(AtLeast16(a)) == Np2(AtLeast16(b)) <==> PoolOf(a) == PoolOf(b)
  {
    HighestBits();
    assert Np2(AtLeast16(a)) in {16, 32, 64, 128, 256, 512, 1024, 2048, 4096};
    assert Np2(AtLeast16(b)) in {16, 32, 64, 128, 256, 512, 1024, 2048, 4096};
  }

  /** A size beyond all pools is in no class of theirs. */
  lemma LargeClass(a: bv32, b: bv32)
    requires a <= 2048 && 2048 < b
    ensures Np2(AtLeast16(a)) != Np2(AtLeast16(b))
  {
  }

  /** The request goes to the pool. */
  predicate Belongs(size: bv32, pool: nat) {
    Full(size) <= 2048 && PoolOf(Full(size)) == pool
  }

  lemma ClassStays(was: bv32, size: bv32, pool: nat)
    requires Belongs(was, pool)
    ensures Np2(AtLeast16(Full(was))) == Np2(AtLeast16(Full(size))) <==> Belongs(size, pool)
  {
    var a, b := Full(was), Full(size);
    hide Np2, AtLeast16, PoolOf;
    if b <= 2048 {
      SameClass(a, b);
    } else {
      LargeClass(a, b);
    }
  }

  /** The 32-bit sum of the request and its header is at most the capacity of the pool. */
  predicate SumFits(size: bv32, pool: nat) {
    pool < NUMBER_OF_POOLS && Full(size) <= Capacity(pool)
  }

  function Number(size: bv32): nat {
    size as nat
  }

  /** The capacity of a pool as a number. */
  function Room(pool: nat): nat
    requires pool < NUMBER_OF_POOLS
  {
    [16, 32, 64, 128, 256, 512, 1024, 2048][pool]
  }

  /** A segment of the pool has room for the request and its header. */
  predicate HasRoom(size: bv32, pool: nat) {
    pool < NUMBER_OF_POOLS && Number(size) + 16 <= Room(pool)
  }

  /** The sum of the request and its header is cut to 32 bits. */
  predicate Wraps(size: bv32) {
    size >= 0xFFFF_FFF0
  }

  lemma Large(a: bv32)
    requires Wraps(a)
    ensures Number(a) > 4096
  {
  }

  lemma NoRoom(size: bv32, pool: nat)
    requires Wraps(size)
    ensures !HasRoom(size, pool)
  {
    Large(size);
    hide Wraps, Number;
  }

  /** The largest request without its header. */
  function Largest(pool: nat): bv32
    requires pool <= 8
  {
    Capacity(pool) - 16
  }

  lemma LargestIs(pool: nat)
    requires pool < NUMBER_OF_POOLS
    ensures Number(Largest(pool)) + 16 == Room(pool) <= 2048
  {
  }

  lemma CapacityIs(pool: nat)
    requires pool < NUMBER_OF_POOLS
    ensures 16 <= Capacity(pool) <= 2048
  {
  }

  lemma BelowLargest(size: bv32, pool: nat)
    requires !Wraps(size) && SumFits(size, pool)
    ensures size <= Largest(pool) <= 2048
  {
    CapacityIs(pool);
    hide Capacity;
  }

  lemma AtMost(a: bv32, b: bv32)
    requires a <= b <= 2048
    ensures Number(a) <= Number(b)
  {
  }

  lemma NoWrap(size: bv32, pool: nat)
    requires !Wraps(size) && SumFits(size, pool)
    ensures Number(size) <= Number(Largest(pool))
  {
    assert pool <= 8;
    hide *;
    BelowLargest(size, pool);
    AtMost(size, Largest(pool));
  }

  lemma RoomLeft(size: bv32, pool: nat)
    requires !Wraps(size) && SumFits(size, pool)
    ensures HasRoom(size, pool)
  {
    hide Wraps, Capacity, Full, Number, Room, Largest;
    LargestIs(pool);
    NoWrap(size, pool);
  }

  /** Where the sum fits there is room exactly as long as it has not wrapped around. */
  lemma RoomExact(size: bv32, pool: nat)
    requires SumFits(size, pool)
    ensures HasRoom(size, pool) <==> !Wraps(size)
  {
    hide Wraps, SumFits, HasRoom;
    if Wraps(size) {
      NoRoom(size, pool);
    } else {
      RoomLeft(size, pool);
    }
  }

  lemma BelongsSmall(size: bv32, pool: nat)
    requires Belongs(size, pool)
    ensures Full(size) <= 2048
  {
  }

  lemma BelongsFits(size: bv32, pool: nat)
    requires Belongs(size, pool)
    ensures HasRoom(size, pool) <==> !Wraps(size)
  {
    PoolIsFirstFit(Full(size), pool);
    RoomExact(size, pool);
  }

  // ---------------------------------------------------------------------------------------------
  // The pools
  // ---------------------------------------------------------------------------------------------

  /** A segment by its pool and its offset in the memory of the pool. */
  datatype Segment = Segment(pool: nat, offset: nat)

  datatype Pool = Pool(free: seq<Segment>, segments: nat, allocs: nat, deallocs: nat)

  /** NoPool: the number of the pool is out of range. */
  datatype Grant = Granted(s: Segment) | Refused | NoPool

  function Stride(pool: nat): nat
    requires pool < NUMBER_OF_POOLS
    ensures Stride(pool) > 16
  {
    [16, 32, 64, 128, 256, 512, 1024, 2048][pool] + 16
  }

  /** The segments cut out of the block of a pool. */
  ghost predicate Cut(s: Segment) {
    s.pool < NUMBER_OF_POOLS && s.offset < BLOCK_SIZE && s.offset % Stride(s.pool) == 0
  }

  /** The segments of a pool that are handed out. */
  ghost function LiveOf(live: set<Segment>, pool: nat): set<Segment> {
    set s | s in live && s.pool == pool
  }

  /** A segment has its capacity and the bytes of one header. */
  lemma StrideExact(pool: nat)
    requires pool < NUMBER_OF_POOLS
    ensures Stride(pool) == Room(pool) + 16
  {
  }

  /** The number of segments that a pool is cut into. */
  function SegmentCount(pool: nat): nat
    requires pool < NUMBER_OF_POOLS
  {
    (BLOCK_SIZE + Stride(pool) - 1) / Stride(pool)
  }

  /** Every segment of the pool is either free or live, and the counters tell how many are live. */
  ghost predicate Balanced(p: Pool, pool: nat, live: set<Segment>) {
    && pool < NUMBER_OF_POOLS && p.segments == SegmentCount(pool)
    && NoRepeat(p.free)
    && (forall s :: s in p.free ==> s.pool == pool && Cut(s) && s !in live)
    && (forall s :: Cut(s) && s.pool == pool ==> s in p.free || s in live)
    && |p.free| + |LiveOf(live, pool)| == p.segments
    && p.allocs == p.deallocs + |LiveOf(live, pool)|
  }

  /** The headers of the segments have sizes of the class of their pools. */
  ghost predicate Sized(sizes: map<Segment, bv32>, out: set<Segment>) {
    forall s :: s in out ==> Cut(s) && s in sizes && Belongs(sizes[s], s.pool)
  }

  lemma SizeOfLive(sizes: map<Segment, bv32>, out: set<Segment>, s: Segment)
    requires Sized(sizes, out) && s in out
    ensures Cut(s) && s in sizes && Belongs(sizes[s], s.pool) && s.pool < NUMBER_OF_POOLS
  {
  }

  lemma SizedMore(sizes: map<Segment, bv32>, out: set<Segment>, s: Segment, size: bv32)
    requires Sized(sizes, out) && Cut(s) && Belongs(size, s.pool)
    ensures Sized(sizes[s := size], out + {s})
  {
  }

  lemma SizedLess(sizes: map<Segment, bv32>, out: set<Segment>, s: Segment)
    requires Sized(sizes, out)
    ensures Sized(sizes, out - {s})
  {
  }

  lemma ProductsGrow(a: nat, b: nat, d: nat)
    ensures a <= b ==> a * d <= b * d
  {
    if a <= b {
      assert b * d == a * d + (b - a) * d;
    }
  }

  lemma Quotient(x: nat, d: nat, q: nat)
    requires d > 0 && q * d <= x < (q + 1) * d
    ensures x / d == q
  {
    Arithmetic.DivMod(x, d);
    Arithmetic.MulGrows(d, q - x / d);
    assert d * (q - x / d) == q * d - d * (x / d);
    assert (q + 1) * d == q * d + d;
  }

  lemma AllCut(p: Pool, pool: nat)
    requires pool < NUMBER_OF_POOLS && p == Pool(p.free, |p.free|, 0, 0)
    requires var n, size := |p.free|, Stride(pool); n > 0 && (n - 1) * size < BLOCK_SIZE <= n * size
    requires forall k :: 0 <= k < |p.free| ==>
             p.free[k] == Segment(pool, k * Stride(pool)) && k * Stride(pool) < BLOCK_SIZE
    ensures Balanced(p, pool, {})
  {
    var n, size := |p.free|, Stride(pool);
    forall k | 0 <= k < n ensures Cut(p.free[k]) {
      Arithmetic.MulMod(k, size);
      assert size * k == k * size;
    }
    forall j, k | 0 <= j < k < n ensures p.free[j] != p.free[k] {
      Arithmetic.MulGrows(size, k - j);
      assert size * (k - j) == k * size - j * size;
    }
    forall s | Cut(s) && s.pool == pool ensures s in p.free {
      var k := s.offset / size;
      Arithmetic.DivMod(s.offset, size);
      assert size * k == k * size;
      ProductsGrow(n, k, size);
      assert p.free[k] == s;
    }
    assert LiveOf({}, pool) == {};
    Quotient(BLOCK_SIZE + size - 1, size, n);
  }

  /** PoolAllocatorBlock_Init */
  method CutBlock(pool: nat) returns (p: Pool)
    requires pool < NUMBER_OF_POOLS
    ensures Balanced(p, pool, {})
  {
    var size := Stride(pool);
    p := Pool([], 0, 0, 0);
    var i := 0;
    while i < BLOCK_SIZE
      invariant i == |p.free| * size && p == Pool(p.free, |p.free|, 0, 0)
      invariant forall k :: 0 <= k < |p.free| ==> p.free[k] == Segment(pool, k * size) && k * size < BLOCK_SIZE
      invariant |p.free| == 0 || (|p.free| - 1) * size < BLOCK_SIZE
      decreases BLOCK_SIZE - i
    {
      p := p.(segments := p.segments + 1, free := p.free + [Segment(pool, i)]);
      i := i + size;
    }
    AllCut(p, pool);
  }

  lemma PutBalance(p: Pool, i: nat, out: set<Segment>, s: Segment)
    requires Balanced(p, i, out) && s in out && Cut(s) && s.pool == i
    ensures Balanced(p.(free := p.free + [s], deallocs := p.deallocs + 1), i, out - {s})
  {
    assert LiveOf(out, i) == LiveOf(out - {s}, i) + {s};
    assert s !in p.free;
    var more := p.free + [s];
    forall x | x in more ensures x in p.free || x == s {
    }
    assert more[|p.free|] == s;
    assert forall k :: 0 <= k < |p.free| ==> more[k] == p.free[k];
  }

  lemma TakeBalance(p: Pool, i: nat, live: set<Segment>)
    requires Balanced(p, i, live) && p.free != []
    ensures var s := p.free[|p.free| - 1];
            && Balanced(p.(free := p.free[..|p.free| - 1], allocs := p.allocs + 1), i, live + {s})
            && s !in live && Cut(s) && s.pool == i
  {
    var n := |p.free| - 1;
    var s, rest := p.free[n], p.free[..n];
    assert s in p.free;
    assert LiveOf(live + {s}, i) == LiveOf(live, i) + {s};
    forall x | x in p.free && x != s ensures x in rest {
      var k :| 0 <= k <= n && p.free[k] == x;
      assert rest[k] == x;
    }
    forall x | x in rest ensures x in p.free && x != s {
      var k :| 0 <= k < n && rest[k] == x;
      assert p.free[k] == x;
    }
  }

  lemma OtherPool(p: Pool, j: nat, i: nat, live: set<Segment>, s: Segment)
    requires i != j && s.pool == i && Balanced(p, j, live)
    ensures Balanced(p, j, live + {s}) && Balanced(p, j, live - {s})
  {
    assert LiveOf(live + {s}, j) == LiveOf(live, j) == LiveOf(live - {s}, j);
  }

  /** The segment that was given back last, or else the last one of the block, leaves the pool, and is counted. */
  predicate Taken(before: Pool, after: Pool, s: Segment) {
    && before.free == after.free + [s] && after.allocs == before.allocs + 1
    && after.deallocs == before.deallocs && after.segments == before.segments
  }

  /** The segment is the next one to leave the pool, and is counted. */
  predicate Given(before: Pool, after: Pool, s: Segment) {
    && after.free == before.free + [s] && after.deallocs == before.deallocs + 1
    && after.allocs == before.allocs && after.segments == before.segments
  }

  class PoolAllocator {
    const pools: array<Pool>
    var sizes: map<Segment, bv32>
    ghost var live: set<Segment>

    /** All pools are balanced when the segments of `out` are handed out. */
    ghost predicate Books(out: set<Segment>)
      reads pools
    {
      pools.Length == NUMBER_OF_POOLS && forall i :: 0 <= i < NUMBER_OF_POOLS ==> Balanced(pools[i], i, out)
    }

    ghost predicate Valid()
      reads this, pools
    {
      Books(live) && Sized(sizes, live)
    }

    /** PoolAllocator_alloc */
    method Take(size: bv32, ghost out: set<Segment>) returns (r: Grant)
      requires Books(out)
      modifies pools
      ensures Books(if r.Granted? then out + {r.s} else out)
      ensures r.NoPool? <==> 2048 < size < 4096
      ensures r.Granted? ==> 0 < size <= 2048 && r.s !in out && Cut(r.s) && r.s.pool == PoolOf(size)
      ensures r.Refused? <==> size == 0 || size >= 4096 || (size <= 2048 && old(pools[PoolOf(size)].free) == [])
      ensures !r.Granted? ==> pools[..] == old(pools[..])
      ensures r.Granted? ==> Taken(old(pools[r.s.pool]), pools[r.s.pool], r.s)
      ensures forall j :: 0 <= j < NUMBER_OF_POOLS && r.Granted? && j != r.s.pool ==> pools[j] == old(pools[j])
    {
      hide Balanced, Np2, Cut, N21, AtLeast16;
      if size == 0 || size >= 4096 {
        return Refused;
      }
      PoolIsFirstFit(size, PoolOf(size));
      var i := N21(Np2(AtLeast16(size))) - 4;
      if i >= NUMBER_OF_POOLS {
        return NoPool;
      }
      var p := pools[i];
      if p.free == [] {
        return Refused;
      }
      var s := p.free[|p.free| - 1];
      TakeBalance(p, i, out);
      forall j | 0 <= j < NUMBER_OF_POOLS && j != i ensures Balanced(pools[j], j, out + {s}) {
        OtherPool(pools[j], j, i, out, s);
      }
      pools[i] := p.(free := p.free[..|p.free| - 1], allocs := p.allocs + 1);
      return Granted(s);
    }

    /** PoolAllocator_dealloc */
    method Put(s: Segment, size: bv32, ghost out: set<Segment>)
      requires Books(out) && s in out && Cut(s) && size <= 2048 && PoolOf(size) == s.pool
      modifies pools
      ensures Books(out - {s}) && Given(old(pools[s.pool]), pools[s.pool], s)
      ensures forall j :: 0 <= j < NUMBER_OF_POOLS && j != s.pool ==> pools[j] == old(pools[j])
    {
      hide Balanced, Np2, Cut, N21, AtLeast16;
      var i := N21(Np2(AtLeast16(size))) - 4;
      var p := pools[i];
      PutBalance(p, i, out, s);
      forall j | 0 <= j < NUMBER_OF_POOLS && j != i ensures Balanced(pools[j], j, out - {s}) {
        OtherPool(pools[j], j, i, out, s);
      }
      pools[i] := p.(free := p.free + [s], deallocs := p.deallocs + 1);
    }

    /**
     Allocator_alloc on a pool allocator: a segment that no one has. It has room for the request and its header
     exactly when their sum does not wrap around.
     */
    method Alloc(size: bv32) returns (r: Grant)
      requires Valid()
      modifies this`sizes, this`live, pools
      ensures Valid()
      ensures r.Granted? ==> r.s !in old(live) && live == old(live) + {r.s} && sizes == old(sizes)[r.s := size]
      ensures r.Granted? ==> size > 0 && (HasRoom(size, r.s.pool) <==> !Wraps(size))
      ensures r.Granted? ==> r.s.pool < pools.Length && Taken(old(pools[r.s.pool]), pools[r.s.pool], r.s)
      ensures forall j :: 0 <= j < pools.Length && r.Granted? && j != r.s.pool ==> pools[j] == old(pools[j])
      ensures !r.Granted? ==> live == old(live) && sizes == old(sizes) && pools[..] == old(pools[..])
      ensures r.NoPool? <==> size > 0 && 2048 < Full(size) < 4096
      ensures r.Refused? <==> size == 0 || Full(size) == 0 || Full(size) >= 4096 ||
                              (Full(size) <= 2048 && old(pools[PoolOf(Full(size))].free) == [])
    {
      hide Balanced, Np2, Cut, N21, AtLeast16, Sized, Full, PoolOf, HasRoom, Wraps;
      if size == 0 {
        return Refused;
      }
      r := Take(Full(size), live);
      if r.Granted? {
        BelongsFits(size, r.s.pool);
        SizedMore(sizes, live, r.s, size);
        sizes := sizes[r.s := size];
        live := live + {r.s};
      }
    }

    /** Allocator_dealloc: the segment goes back to the pool that it came from. */
    method Dealloc(s: Segment)
      requires Valid() && s in live
      modifies this`live, pools
      ensures Valid() && live == old(live) - {s} && s.pool < pools.Length
      ensures Given(old(pools[s.pool]), pools[s.pool], s)
      ensures forall j :: 0 <= j < NUMBER_OF_POOLS && j != s.pool ==> pools[j] == old(pools[j])
    {
      hide Balanced, Np2, Cut, N21, AtLeast16, Sized, Full, PoolOf;
      SizeOfLive(sizes, live, s);
      SizedLess(sizes, live, s);
      Put(s, Full(sizes[s]), live);
      live := live - {s};
    }

    lemma SizeOfValid(s: Segment)
      requires Valid() && s in live
      ensures s in sizes && Belongs(sizes[s], s.pool) && s.pool < NUMBER_OF_POOLS
    {
      SizeOfLive(sizes, live, s);
    }

    /** The part for the same class. */
    method Rewrite(s: Segment, size: bv32)
      requires Valid() && s in live && Belongs(size, s.pool)
      modifies this`sizes
      ensures Valid() && live == old(live) - {s} + {s} && sizes == old(sizes)[s := size] &&
              (HasRoom(size, s.pool) <==> !Wraps(size))
    {
      hide Balanced, Np2, Cut, N21, AtLeast16, Sized, Full, PoolOf, HasRoom, Wraps;
      SizeOfLive(sizes, live, s);
      BelongsFits(size, s.pool);
      SizedMore(sizes, live, s, size);
      assert live + {s} == live;
      sizes := sizes[s := size];
    }

    /** The part for another class: a new segment first, and only then the old one is given back. */
    method Exchange(s: Segment, size: bv32) returns (r: Grant)
      requires Valid() && s in live
      modifies this`sizes, this`live, pools
      ensures Valid()
      ensures r.Granted? ==> live == old(live) - {s} + {r.s} && sizes == old(sizes)[r.s := size]
      ensures r.NoPool? <==> 2048 < Full(size) < 4096
      ensures r.Refused? <==> Full(size) == 0 || Full(size) >= 4096 ||
                              (Full(size) <= 2048 && old(pools[PoolOf(Full(size))].free) == [])
      ensures r.Granted? ==> r.s !in old(live) && (HasRoom(size, r.s.pool) <==> !Wraps(size))
      ensures !r.Granted? ==> live == old(live) && sizes == old(sizes) && pools[..] == old(pools[..])
    {
      hide Balanced, Np2, Cut, N21, AtLeast16, Sized, Full, PoolOf, HasRoom, Wraps;
      SizeOfLive(sizes, live, s);
      r := Take(Full(size), live);
      if r.Granted? {
        BelongsFits(size, r.s.pool);
        Put(s, Full(sizes[s]), live + {r.s});
        SizedMore(sizes, live, r.s, size);
        SizedLess(sizes[r.s := size], live + {r.s}, s);
        sizes := sizes[r.s := size];
        live := live - {s} + {r.s};
        assert live == old(live) + {r.s} - {s};
      }
    }

    /**
     Allocator_reAlloc: within one class the segment stays and has its size rewritten; otherwise it is
     exchanged for another one, or nothing happens.
     */
    method ReAlloc(s: Segment, size: bv32) returns (r: Grant)
      requires Valid() && s in live && size > 0
      modifies this`sizes, this`live, pools
      ensures Valid()
      ensures r.Granted? ==> live == old(live) - {s} + {r.s} && sizes == old(sizes)[r.s := size]
      ensures r.Granted? ==> (r.s == s || r.s !in old(live)) && (HasRoom(size, r.s.pool) <==> !Wraps(size))
      ensures !r.Granted? ==> live == old(live) && sizes == old(sizes) && pools[..] == old(pools[..])
      ensures r == Granted(s) <==> Belongs(size, s.pool)
      ensures r.NoPool? <==> 2048 < Full(size) < 4096
      ensures r.Refused? <==> !Belongs(size, s.pool) && (Full(size) == 0 || Full(size) >= 4096 ||
                              (Full(size) <= 2048 && old(pools[PoolOf(Full(size))].free) == []))
    {
      hide Valid, Balanced, Np2, Cut, N21, AtLeast16, Sized, Full, PoolOf, HasRoom, Wraps, Belongs;
      SizeOfValid(s);
      var orig := Full(sizes[s]);
      ClassStays(sizes[s], size, s.pool);
      if Np2(AtLeast16(orig)) == Np2(AtLeast16(Full(size))) {
        BelongsSmall(size, s.pool);
        Rewrite(s, size);
        return Granted(s);
      }
      r := Exchange(s, size);
    }

    /** PoolAllocator_Init: every pool is cut into free segments. */
    constructor ()
      ensures Valid() && live == {} && fresh(pools)
    {
      pools := new Pool[NUMBER_OF_POOLS](_ => Pool([], 0, 0, 0));
      sizes, live := map[], {};
      new;
      var i := 0;
      while i < NUMBER_OF_POOLS
        invariant 0 <= i <= NUMBER_OF_POOLS && pools.Length == NUMBER_OF_POOLS && live == {} && sizes == map[]
        invariant forall j :: 0 <= j < i ==>
                  Balanced(pools[j], j, {})
      {
        pools[i] := CutBlock(i);
        i := i + 1;
      }
    }
  }

  /** Once nothing is live, every pool has all its segments again. */
  lemma EverythingBack(p: Pool, pool: nat)
    requires Balanced(p, pool, {})
    ensures |p.free| == p.segments && p.allocs == p.deallocs
    ensures forall s :: s in p.free <==> Cut(s) && s.pool == pool
  {
    assert LiveOf({}, pool) == {};
  }

  /** Different segments of a pool do not overlap. */
  lemma SegmentsApart(a: Segment, b: Segment)
    requires Cut(a) && Cut(b) && a.pool == b.pool && a != b
    ensures a.offset + Stride(a.pool) <= b.offset || b.offset + Stride(a.pool) <= a.offset
  {
    var d := Stride(a.pool);
    Arithmetic.DivMod(a.offset, d);
    Arithmetic.DivMod(b.offset, d);
    var k := b.offset / d - a.offset / d;
    assert b.offset - a.offset == d * k;
    Arithmetic.MulGrows(d, k);
  }

  lemma EightBytes()
    ensures Full(0xFFFF_FFF8) == 8 && PoolOf(8) == 0 && Wraps(0xFFFF_FFF8)
  {
    PoolIsFirstFit(8, 0);
  }

  /** A new allocator grants a request of 0xFFFFFFF8 bytes from a pool that has no room for it. */
  method HugeRequestGranted() returns (r: Grant)
    ensures r.Granted? && !HasRoom(0xFFFF_FFF8, r.s.pool)
  {
    var a := new PoolAllocator();
    EightBytes();
    EverythingBack(a.pools[0], 0);
    assert a.pools[0].free != [] by {
      assert Stride(0) == 32;
      assert |a.pools[0].free| == a.pools[0].segments;
    }
    hide Balanced, Cut, Full, PoolOf, HasRoom, Sized;
    r := a.Alloc(0xFFFF_FFF8);
  }
}
