/**
 The pool allocator over whole runs of calls. A client keeps its segments in slots; an empty slot is a NULL
 pointer. Which requests are granted depends on nothing but the sizes that the client holds.
 */
module PoolRuns {
  import opened Basics
  import opened Pools

  /** Get is Allocator_reAlloc on a slot, which is Allocator_alloc when the slot is empty; Give is Allocator_dealloc. */
  datatype Op = Get(slot: nat, size: bv32) | Give(slot: nat)

  // ---------------------------------------------------------------------------------------------
  // What a run does, by sizes alone
  // ---------------------------------------------------------------------------------------------

  /** The slots that hold segments of a pool. */
  function SlotsOf(held: map<nat, bv32>, pool: nat): set<nat> {
    set k | k in held && Belongs(held[k], pool)
  }

  predicate SamePool(a: bv32, b: bv32) {
    Full(a) <= 2048 && Full(b) <= 2048 && PoolOf(Full(a)) == PoolOf(Full(b))
  }

  /** A segment of the pool of a request is left. */
  predicate SomeLeft(held: map<nat, bv32>, size: bv32) {
    0 < Full(size) <= 2048 && |SlotsOf(held, PoolOf(Full(size)))| < SegmentCount(PoolOf(Full(size)))
  }

  predicate Served(held: map<nat, bv32>, slot: nat, size: bv32) {
    size > 0 && ((slot in held && SamePool(held[slot], size)) || SomeLeft(held, size))
  }

  function After(held: map<nat, bv32>, op: Op): map<nat, bv32> {
    match op
    case Get(slot, size) => if Served(held, slot, size) then held[slot := size] else held
    case Give(slot) => held - {slot}
  }

  function HeldAfter(ops: seq<Op>): map<nat, bv32> {
    if ops == [] then map[] else After(HeldAfter(ops[..|ops| - 1]), ops[|ops| - 1])
  }

  /** A size of zero is for empty slots only. */
  predicate Legal(ops: seq<Op>) {
    forall i :: 0 <= i < |ops| && ops[i].Get? && ops[i].slot in HeldAfter(ops[..i]) ==> ops[i].size > 0
  }

  // ---------------------------------------------------------------------------------------------
  // The allocator and its client
  // ---------------------------------------------------------------------------------------------

  /** The slots hold different segments, all that are live, with the sizes that were asked for. */
  ghost predicate Holds(table: map<nat, Segment>, held: map<nat, bv32>, live: set<Segment>,
                        sizes: map<Segment, bv32>)
  {
    && table.Keys == held.Keys && live == table.Values
    && (forall j, k :: j in table && k in table && j != k ==> table[j] != table[k])
    && (forall k :: k in table ==> table[k] in sizes && sizes[table[k]] == held[k])
  }

  lemma {:induction false} ImageSize(table: map<nat, Segment>, slots: set<nat>)
    requires slots <= table.Keys
    requires forall j, k :: j in table && k in table && j != k ==> table[j] != table[k]
    ensures |set k | k in slots :: table[k]| == |slots|
    decreases |slots|
  {
    if slots != {} {
      var k :| k in slots;
      var rest := slots - {k};
      ImageSize(table, rest);
      assert (set j | j in slots :: table[j]) == (set j | j in rest :: table[j]) + {table[k]};
      assert slots == rest + {k};
    }
  }

  lemma BelongsOnce(size: bv32, p: nat, q: nat)
    requires Belongs(size, p)
    ensures Belongs(size, q) <==> p == q
  {
  }

  /** The live segments of a pool are as many as the slots with sizes for it. */
  lemma LiveIsHeld(table: map<nat, Segment>, held: map<nat, bv32>, live: set<Segment>, sizes: map<Segment, bv32>,
                   pool: nat)
    requires Holds(table, held, live, sizes) && Sized(sizes, live)
    ensures |LiveOf(live, pool)| == |SlotsOf(held, pool)|
  {
    hide Belongs, Cut;
    var slots := SlotsOf(held, pool);
    forall k | k in table ensures k in slots <==> table[k].pool == pool {
      BelongsOnce(held[k], table[k].pool, pool);
    }
    assert LiveOf(live, pool) == set k | k in slots :: table[k];
    ImageSize(table, slots);
  }

  /** In every reachable state each pool has its segments: the free ones, and one for each slot that holds one. */
  ghost predicate Conserved(a: PoolAllocator, held: map<nat, bv32>)
    reads a, a.pools
  {
    a.pools.Length == NUMBER_OF_POOLS &&
    forall i :: 0 <= i < NUMBER_OF_POOLS ==> |a.pools[i].free| + |SlotsOf(held, i)| == SegmentCount(i)
  }

  lemma BooksConserved(a: PoolAllocator, table: map<nat, Segment>, held: map<nat, bv32>)
    requires a.Valid() && Holds(table, held, a.live, a.sizes)
    ensures Conserved(a, held)
  {
    hide Cut, SlotsOf, LiveOf, Holds, SegmentCount, NoRepeat, Sized;
    forall i | 0 <= i < NUMBER_OF_POOLS ensures |a.pools[i].free| + |SlotsOf(held, i)| == SegmentCount(i) {
      LiveIsHeld(table, held, a.live, a.sizes, i);
    }
  }

  lemma HoldsMore(table: map<nat, Segment>, held: map<nat, bv32>, live: set<Segment>, sizes: map<Segment, bv32>,
                  slot: nat, s: Segment, size: bv32)
    requires Holds(table, held, live, sizes) && (s !in live || (slot in table && table[slot] == s))
    ensures Holds(table[slot := s], held[slot := size],
                  (if slot in table then live - {table[slot]} else live) + {s}, sizes[s := size])
  {
    var after := table[slot := s];
    assert forall k :: k in table && k != slot ==> after[k] == table[k] && table[k] in table.Values;
    assert after[slot] == s;
    var rest := if slot in table then live - {table[slot]} else live;
    forall x ensures x in rest + {s} <==> x in after.Values {
      if x in rest {
        var k :| k in table && table[k] == x;
        assert after[k] == x;
      }
    }
    assert after.Keys == held[slot := size].Keys;
  }

  lemma HoldsLess(table: map<nat, Segment>, held: map<nat, bv32>, live: set<Segment>, sizes: map<Segment, bv32>,
                  slot: nat)
    requires Holds(table, held, live, sizes) && slot in table
    ensures Holds(table - {slot}, held - {slot}, live - {table[slot]}, sizes)
  {
    var after := table - {slot};
    forall x ensures x in live - {table[slot]} <==> x in after.Values {
      if x in live - {table[slot]} {
        var k :| k in table && table[k] == x;
        assert k in after && after[k] == x;
      }
    }
    assert after.Keys == (held - {slot}).Keys;
  }

  lemma HeldBelongs(table: map<nat, Segment>, held: map<nat, bv32>, live: set<Segment>, sizes: map<Segment, bv32>,
                    slot: nat)
    requires Holds(table, held, live, sizes) && Sized(sizes, live) && slot in held
    ensures slot in table && table[slot] in live
    ensures forall size :: Belongs(size, table[slot].pool) <==> SamePool(held[slot], size)
  {
    assert table[slot] in table.Values;
  }

  /** A free segment is there exactly when the client does not hold them all. */
  lemma LeftExactly(a: PoolAllocator, held: map<nat, bv32>, size: bv32)
    requires Conserved(a, held) && Full(size) <= 2048
    ensures Full(size) > 0 ==> (a.pools[PoolOf(Full(size))].free == [] <==> !SomeLeft(held, size))
  {
    hide Full, PoolOf, SlotsOf, SegmentCount;
  }

  lemma NoneLeft(held: map<nat, bv32>, size: bv32)
    requires !(0 < Full(size) <= 2048)
    ensures !SomeLeft(held, size)
  {
  }

  /** Whether a request for a new segment is refused, in terms of the free segments. */
  predicate Exhausted(a: PoolAllocator, size: bv32)
    requires a.pools.Length == NUMBER_OF_POOLS
    reads a, a.pools
  {
    Full(size) == 0 || 2048 < Full(size) || a.pools[PoolOf(Full(size))].free == []
  }

  lemma ExhaustedExactly(a: PoolAllocator, held: map<nat, bv32>, size: bv32)
    requires Conserved(a, held)
    ensures Exhausted(a, size) <==> !SomeLeft(held, size)
  {
    hide Full, PoolOf, SlotsOf, SegmentCount, SomeLeft;
    if Full(size) <= 2048 {
      LeftExactly(a, held, size);
    }
    if Full(size) == 0 || 2048 < Full(size) {
      NoneLeft(held, size);
    }
  }

  lemma SlotEmpty(table: map<nat, Segment>, held: map<nat, bv32>, live: set<Segment>, sizes: map<Segment, bv32>,
                  slot: nat)
    requires Holds(table, held, live, sizes)
    ensures slot in table <==> slot in held
  {
  }

  /** Allocator_alloc for an empty slot. */
  method Fill(a: PoolAllocator, table: map<nat, Segment>, slot: nat, size: bv32, ghost held: map<nat, bv32>)
    returns (r: Grant)
    requires a.Valid() && Holds(table, held, a.live, a.sizes) && slot !in held
    modifies a`sizes, a`live, a.pools
    ensures a.Valid() && (r.Granted? <==> Served(held, slot, size))
    ensures r.Granted? ==> Holds(table[slot := r.s], held[slot := size], a.live, a.sizes)
    ensures !r.Granted? ==> Holds(table, held, a.live, a.sizes)
  {
    BooksConserved(a, table, held);
    ExhaustedExactly(a, held, size);
    hide a.Valid, Holds, SomeLeft, Full, PoolOf, HasRoom, Wraps, SamePool, Conserved;
    ghost var live, sizes := a.live, a.sizes;
    SlotEmpty(table, held, live, sizes, slot);
    r := a.Alloc(size);
    if r.Granted? {
      HoldsMore(table, held, live, sizes, slot, r.s, size);
    }
  }

  /** Allocator_reAlloc for a slot that holds a segment. */
  method Resize(a: PoolAllocator, table: map<nat, Segment>, slot: nat, size: bv32, ghost held: map<nat, bv32>)
    returns (r: Grant)
    requires a.Valid() && Holds(table, held, a.live, a.sizes) && slot in held && slot in table && size > 0
    modifies a`sizes, a`live, a.pools
    ensures a.Valid() && (r.Granted? <==> Served(held, slot, size))
    ensures r.Granted? ==> Holds(table[slot := r.s], held[slot := size], a.live, a.sizes)
    ensures !r.Granted? ==> Holds(table, held, a.live, a.sizes)
  {
    BooksConserved(a, table, held);
    ExhaustedExactly(a, held, size);
    HeldBelongs(table, held, a.live, a.sizes, slot);
    hide a.Valid, Holds, SomeLeft, Full, PoolOf, HasRoom, Wraps, SamePool, Conserved, Belongs;
    ghost var live, sizes := a.live, a.sizes;
    r := a.ReAlloc(table[slot], size);
    if r.Granted? {
      HoldsMore(table, held, live, sizes, slot, r.s, size);
    }
  }

  /** Allocator_dealloc; for an empty slot it does nothing. */
  method Empty(a: PoolAllocator, table: map<nat, Segment>, slot: nat, ghost held: map<nat, bv32>)
    returns (next: map<nat, Segment>)
    requires a.Valid() && Holds(table, held, a.live, a.sizes)
    modifies a`sizes, a`live, a.pools
    ensures a.Valid() && Holds(next, held - {slot}, a.live, a.sizes)
  {
    SlotEmpty(table, held, a.live, a.sizes, slot);
    next := table;
    if slot in table {
      HeldBelongs(table, held, a.live, a.sizes, slot);
      HoldsLess(table, held, a.live, a.sizes, slot);
      hide a.Valid, Holds;
      a.Dealloc(table[slot]);
      next := table - {slot};
    } else {
      assert held - {slot} == held;
    }
  }

  /** One call on a slot. */
  method DoOp(a: PoolAllocator, table: map<nat, Segment>, op: Op, ghost held: map<nat, bv32>)
    returns (served: bool, next: map<nat, Segment>)
    requires a.Valid() && Holds(table, held, a.live, a.sizes)
    requires op.Get? && op.slot in held ==> op.size > 0
    modifies a`sizes, a`live, a.pools
    ensures a.Valid() && Holds(next, After(held, op), a.live, a.sizes)
    ensures served <==> (op.Get? ==> Served(held, op.slot, op.size))
  {
    hide a.Valid, Holds, Served;
    SlotEmpty(table, held, a.live, a.sizes, op.slot);
    if op.Give? {
      next := Empty(a, table, op.slot, held);
      return true, next;
    }
    var r: Grant;
    if op.slot in table {
      r := Resize(a, table, op.slot, op.size, held);
    } else {
      r := Fill(a, table, op.slot, op.size, held);
    }
    return r.Granted?, if r.Granted? then table[op.slot := r.s] else table;
  }

  lemma NothingHeld(sizes: map<Segment, bv32>)
    ensures Holds(map[], HeldAfter([]), {}, sizes)
  {
    var none: map<nat, Segment> := map[];
    assert none.Values == {};
  }

  /**
   Any run of calls on a new allocator. The requests that are granted are just those that the sizes held before
   allow; the slots hold different segments; and no segment of any pool is lost.
   */
  method Play(ops: seq<Op>) returns (a: PoolAllocator, table: map<nat, Segment>, served: seq<bool>)
    requires Legal(ops)
    ensures fresh(a) && a.Valid() && Holds(table, HeldAfter(ops), a.live, a.sizes) && Conserved(a, HeldAfter(ops))
    ensures |served| == |ops| && forall i :: 0 <= i < |ops| ==>
              (served[i] <==> (ops[i].Get? ==> Served(HeldAfter(ops[..i]), ops[i].slot, ops[i].size)))
  {
    hide After, Served, Holds, Conserved;
    a := new PoolAllocator();
    table, served := map[], [];
    NothingHeld(a.sizes);
    var i := 0;
    while i < |ops|
      invariant 0 <= i <= |ops| && a.Valid() && fresh(a) && fresh(a.pools)
      invariant Holds(table, HeldAfter(ops[..i]), a.live, a.sizes)
      invariant |served| == i && forall j :: 0 <= j < i ==>
                  (served[j] <==> (ops[j].Get? ==> Served(HeldAfter(ops[..j]), ops[j].slot, ops[j].size)))
    {
      assert ops[..i + 1][..i] == ops[..i] && ops[..i + 1][i] == ops[i];
      var done, next := DoOp(a, table, ops[i], HeldAfter(ops[..i]));
      table, served, i := next, served + [done], i + 1;
    }
    assert ops[..|ops|] == ops;
    BooksConserved(a, table, HeldAfter(ops));
  }

  /** Two slots never share memory: their segments are of different pools or at least a stride apart. */
  lemma SlotsApart(a: PoolAllocator, table: map<nat, Segment>, held: map<nat, bv32>, j: nat, k: nat)
    requires a.Valid() && Holds(table, held, a.live, a.sizes) && j in held && k in held && j != k
    ensures j in table && k in table
    ensures var s, t := table[j], table[k];
            && s.pool < NUMBER_OF_POOLS
            && (s.pool == t.pool ==> s.offset + Stride(s.pool) <= t.offset || t.offset + Stride(s.pool) <= s.offset)
  {
    HeldBelongs(table, held, a.live, a.sizes, j);
    HeldBelongs(table, held, a.live, a.sizes, k);
    SizeOfLive(a.sizes, a.live, table[j]);
    SizeOfLive(a.sizes, a.live, table[k]);
    if table[j].pool == table[k].pool {
      SegmentsApart(table[j], table[k]);
    }
  }

  lemma RoomInStride(size: bv32, pool: nat)
    requires HasRoom(size, pool)
    ensures Number(size) + 16 <= Stride(pool) - 16
  {
    hide Number;
  }

  /** The bytes of two held requests with their headers do not overlap, unless the sum of one has wrapped around. */
  lemma RequestsApart(a: PoolAllocator, table: map<nat, Segment>, held: map<nat, bv32>, j: nat, k: nat)
    requires a.Valid() && Holds(table, held, a.live, a.sizes) && j in held && k in held && j != k
    requires !Wraps(held[j]) && !Wraps(held[k])
    ensures j in table && k in table && table[j].pool < NUMBER_OF_POOLS
    ensures var s, t := table[j], table[k];
            s.pool == t.pool ==>
              s.offset + Number(held[j]) + 16 <= t.offset || t.offset + Number(held[k]) + 16 <= s.offset
  {
    SlotsApart(a, table, held, j, k);
    HeldBelongs(table, held, a.live, a.sizes, j);
    HeldBelongs(table, held, a.live, a.sizes, k);
    var s, t := table[j], table[k];
    SizeOfLive(a.sizes, a.live, s);
    SizeOfLive(a.sizes, a.live, t);
    hide Belongs, HasRoom, Wraps, Number, Stride, Cut, SamePool;
    BelongsFits(held[j], s.pool);
    BelongsFits(held[k], t.pool);
    RoomInStride(held[j], s.pool);
    RoomInStride(held[k], t.pool);
  }

  function Gives(slots: seq<nat>): (ops: seq<Op>)
    ensures |ops| == |slots|
  {
    seq(|slots|, i requires 0 <= i < |slots| => Give(slots[i]))
  }

  lemma {:induction false} HeldAfterGives(ops: seq<Op>, slots: seq<nat>)
    ensures HeldAfter(ops + Gives(slots)) == HeldAfter(ops) - set k | k in slots
    decreases |slots|
  {
    if slots == [] {
      assert ops + Gives(slots) == ops;
    } else {
      var n := |slots| - 1;
      var all, before := ops + Gives(slots), ops + Gives(slots[..n]);
      assert all[..|all| - 1] == before && all[|all| - 1] == Give(slots[n]);
      HeldAfterGives(ops, slots[..n]);
      assert slots == slots[..n] + [slots[n]];
    }
  }

  /** After any run, emptying every slot in any order brings every segment back to its pool. */
  lemma EverySegmentBack(ops: seq<Op>, slots: seq<nat>, a: PoolAllocator, pool: nat)
    requires pool < NUMBER_OF_POOLS && forall k :: k in HeldAfter(ops) ==> k in slots
    requires Conserved(a, HeldAfter(ops + Gives(slots)))
    ensures |a.pools[pool].free| == SegmentCount(pool)
  {
    HeldAfterGives(ops, slots);
    var held := HeldAfter(ops + Gives(slots));
    assert held == map[];
    assert SlotsOf(held, pool) == {};
  }
}
