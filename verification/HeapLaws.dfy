/** What the VM heap promises its callers, over single calls and over whole runs of calls. */
module HeapLaws {
  import opened Basics
  import opened Arithmetic
  import opened HeapModel

  // ---------------------------------------------------------------------------------------------
  // Exactly when a call of VM_alloc is sound
  // ---------------------------------------------------------------------------------------------

  /** Putting a block back leaves the used list and the top alone. */
  lemma PutBackRest()
    ensures forall g: Heap, b: Block {:trigger PutBack(g, b)} ::
              PutBack(g, b).used == g.used && PutBack(g, b).top == g.top && PutBack(g, b).lmt == g.lmt
  {
    hide Compact, Insert;
  }

  /** What is granted outside of the guard is too small, empty, or reaches beyond the top. */
  lemma UnsafeGrant(h: Heap, request: nat)
    requires 0 < h.aln && !AllocSafe(h, request)
    ensures Alloc(h, request).Granted?
    ensures var Granted(g, b) := Alloc(h, request);
            |g.used| > 0 && g.used[0] == b && (b.size < request || b.size == 0 || g.top < b.End())
  {
    hide FirstFit, Align32, PutBack;
    PutBackRest();
  }

  ghost predicate Distinct(s: seq<Block>) {
    forall i, j :: 0 <= i < j < |s| ==> s[i].addr != s[j].addr
  }

  lemma UsedDistinct(h: Heap, hb: nat)
    requires Inv(h, hb)
    ensures Distinct(h.used)
    ensures forall i :: 0 <= i < |h.used| ==> hb <= h.used[i].addr && 0 < h.used[i].size && h.used[i].End() <= h.top
  {
    var o :| Tiling(o, h, hb);
    SanePositive(h.used, hb, h.aln);
    hide Sane, Chain;
    BoundedBy(h.used, multiset(h.free), o, hb, h.top);
    forall i, j | 0 <= i < j < |h.used|
      ensures h.used[i].addr != h.used[j].addr
    {
      Remove(h.used, j);
      var others := h.used[..j] + h.used[j + 1..];
      assert others[i] == h.used[i];
      assert h.used[i] in multiset(others);
      var rest := multiset(h.free) + multiset(others);
      NoOverlap(o, rest, h.used[i], h.used[j], hb, h.top);
    }
  }

  lemma UnsafeBreaks(h: Heap, request: nat, hb: nat)
    requires Inv(h, hb) && !AllocSafe(h, request)
    ensures Alloc(h, request).Granted?
    ensures !(Inv(Alloc(h, request).heap, hb) && request <= Alloc(h, request).block.size)
  {
    UnsafeGrant(h, request);
    hide Alloc, AllocSafe, Inv;
    if Inv(Alloc(h, request).heap, hb) {
      UsedDistinct(Alloc(h, request).heap, hb);
    }
  }

  /** The request is served soundly exactly when the guard AllocSafe holds before the call. */
  lemma AllocExact(h: Heap, request: nat, hb: nat)
    requires Inv(h, hb)
    ensures AllocSafe(h, request) <==>
            (Alloc(h, request).Granted? ==>
               Inv(Alloc(h, request).heap, hb) && request <= Alloc(h, request).block.size)
  {
    assert 0 < h.aln;
    hide Inv, AllocSafe, Alloc;
    if AllocSafe(h, request) {
      AllocKeeps(h, request, hb);
    } else {
      UnsafeBreaks(h, request, hb);
    }
  }

  /** A plain sufficient condition: a positive request that cannot wrap around. */
  lemma PlainRequestSafe(h: Heap, request: nat, hb: nat)
    requires Inv(h, hb)
    requires 0 < request && request + h.aln - 1 < U32 && h.top + Align32(request, h.aln) < U32
    ensures AllocSafe(h, request)
  {
    var size := Align32(request, h.aln);
    var i := FirstFit(h, size, 0);
    if i < |h.free| {
      var o :| Tiling(o, h, hb);
      hide Sane, Chain;
      BoundedBy(h.free, multiset(h.used), o, hb, h.top);
    }
  }

  /** A request of 0xFFFFFFFF bytes is rounded to 0 and granted with no bytes. */
  lemma HugeRequestGrantsNothing()
    ensures Alloc(Init(256, 16, 8, 100, 9000), 0xFFFF_FFFF).Granted?
    ensures Alloc(Init(256, 16, 8, 100, 9000), 0xFFFF_FFFF).block == Block(100, 0)
  {
  }

  /** A request of 0xFFFFFFF0 bytes wraps the top below the heap boundary. */
  lemma HugeRequestLowersTop()
    ensures Alloc(Init(256, 16, 8, 100, 9000), 0xFFFF_FFF0).Granted?
    ensures Alloc(Init(256, 16, 8, 100, 9000), 0xFFFF_FFF0).heap.top == 84
  {
  }

  /** After a request of 0 bytes, one address can be freed twice. */
  lemma EmptyRequestFreesTwice()
    ensures var h0 := Alloc(Init(256, 16, 8, 100, 9000), 0).heap;
            var h1 := Alloc(h0, 8).heap;
            Free(h1, 100).1 && Free(Free(h1, 100).0, 100).1
  {
    var h0 := Alloc(Init(256, 16, 8, 100, 9000), 0).heap;
    assert h0 == Heap([], [Block(100, 0)], 255, 100, 16, 9000, 8);
    var h1 := Alloc(h0, 8).heap;
    assert h1 == Heap([], [Block(100, 8), Block(100, 0)], 254, 108, 16, 9000, 8);
    var h2 := Free(h1, 100).0;
    assert h1.used[..0] + h1.used[1..] == [Block(100, 0)];
    assert h2.used == [Block(100, 0)];
  }

  // ---------------------------------------------------------------------------------------------
  // The tiling, address by address
  // ---------------------------------------------------------------------------------------------

  function Total(s: seq<Block>, f: Block -> nat): nat {
    if s == [] then 0 else f(s[0]) + Total(s[1..], f)
  }

  lemma TotalConcat(a: seq<Block>, b: seq<Block>, f: Block -> nat)
    ensures Total(a + b, f) == Total(a, f) + Total(b, f)
  {
    if a == [] {
      assert a + b == b;
    } else {
      assert (a + b)[1..] == a[1..] + b;
      TotalConcat(a[1..], b, f);
    }
  }

  /** A total does not depend on the order. */
  lemma {:induction false} TotalPermutation(a: seq<Block>, b: seq<Block>, f: Block -> nat)
    requires multiset(a) == multiset(b)
    ensures Total(a, f) == Total(b, f)
    decreases |a|
  {
    if a == [] {
      assert |multiset(b)| == 0;
    } else {
      var tail := a[1..];
      assert a == [a[0]] + tail;
      assert a[0] in multiset(b);
      var k :| 0 <= k < |b| && b[k] == a[0];
      var pre, post := b[..k], b[k + 1..];
      assert b == pre + ([b[k]] + post);
      Remove(b, k);
      Cancel(multiset(tail), multiset(pre + post), multiset{a[0]});
      TotalPermutation(tail, pre + post, f);
      TotalConcat(pre, post, f);
      TotalConcat(pre, [b[k]] + post, f);
      assert ([b[k]] + post)[1..] == post;
    }
  }

  function Covers(x: nat): Block -> nat {
    (b: Block) => if b.addr <= x < b.End() then 1 else 0
  }

  lemma {:induction false} ChainCovers(o: seq<Block>, lo: nat, hi: nat, x: nat)
    requires Chain(o, lo, hi)
    ensures Total(o, Covers(x)) == if lo <= x < hi then 1 else 0
  {
    if o != [] {
      ChainEnds(o, lo, hi);
      ChainEnds(o[1..], o[0].End(), hi);
      ChainCovers(o[1..], o[0].End(), hi, x);
    }
  }

  /** Every address of [hb, top) lies in exactly one block, free or used; no other address lies in any. */
  lemma EveryAddressOnce(h: Heap, hb: nat, x: nat)
    requires Inv(h, hb)
    ensures Total(h.free, Covers(x)) + Total(h.used, Covers(x)) == if hb <= x < h.top then 1 else 0
  {
    var o :| Tiling(o, h, hb);
    ChainCovers(o, hb, h.top, x);
    assert multiset(h.free + h.used) == multiset(o);
    TotalPermutation(o, h.free + h.used, Covers(x));
    TotalConcat(h.free, h.used, Covers(x));
  }

  function Size(): Block -> nat {
    (b: Block) => b.size
  }

  lemma {:induction false} ChainSize(o: seq<Block>, lo: nat, hi: nat)
    requires Chain(o, lo, hi)
    ensures Total(o, Size()) == hi - lo
  {
    if o != [] {
      ChainSize(o[1..], o[0].End(), hi);
    }
  }

  /** No byte between hb and top is lost. */
  lemma SizesAddUp(h: Heap, hb: nat)
    requires Inv(h, hb)
    ensures Total(h.free, Size()) + Total(h.used, Size()) == h.top - hb
  {
    var o :| Tiling(o, h, hb);
    ChainSize(o, hb, h.top);
    assert multiset(h.free + h.used) == multiset(o);
    TotalPermutation(o, h.free + h.used, Size());
    TotalConcat(h.free, h.used, Size());
  }

  // ---------------------------------------------------------------------------------------------
  // The heap as a map of live intervals
  // ---------------------------------------------------------------------------------------------

  /** The live intervals: start address to size. */
  function Live(used: seq<Block>): map<nat, nat> {
    if used == [] then map[] else Live(used[1..])[used[0].addr := used[0].size]
  }

  lemma LiveKeys(used: seq<Block>, a: nat)
    ensures a in Live(used) <==> Find(used, a) < |used|
    ensures a in Live(used) ==> Live(used)[a] == used[Find(used, a)].size
  {
  }

  lemma {:induction false} LiveRemove(s: seq<Block>, i: nat)
    requires Distinct(s) && i < |s|
    ensures Live(s[..i] + s[i + 1..]) == Live(s) - {s[i].addr}
  {
    if i == 0 {
      assert s[..0] + s[1..] == s[1..];
      LiveKeys(s[1..], s[0].addr);
    } else {
      var t := s[1..];
      LiveRemove(t, i - 1);
      assert s[..i] + s[i + 1..] == [s[0]] + (t[..i - 1] + t[i..]);
    }
  }

  lemma AllocPushes(h: Heap, request: nat)
    requires h.aln > 0 && Alloc(h, request).Granted?
    ensures var Granted(h', b) := Alloc(h, request); h'.used == [b] + h.used && h'.lmt == h.lmt
  {
    hide FirstFit, Align32, PutBack;
    PutBackRest();
  }

  lemma FreshKey(used: seq<Block>, b: Block)
    requires Distinct([b] + used)
    ensures b.addr !in Live(used) && Live([b] + used) == Live(used)[b.addr := b.size]
  {
    var more := [b] + used;
    LiveKeys(used, b.addr);
    forall k | 0 <= k < |used| ensures used[k].addr != b.addr {
      assert more[k + 1] == used[k] && more[0] == b;
    }
    assert more[1..] == used;
  }

  /** VM_alloc adds one new interval of at least the requested size and changes no other. */
  lemma AllocAddsInterval(h: Heap, request: nat, hb: nat)
    requires Inv(h, hb) && AllocSafe(h, request) && Alloc(h, request).Granted?
    ensures var Granted(h', b) := Alloc(h, request);
      && b.addr !in Live(h.used) && Live(h'.used) == Live(h.used)[b.addr := b.size]
      && request <= b.size && hb <= b.addr && b.End() <= h.lmt
  {
    var Granted(h', b) := Alloc(h, request);
    AllocKeeps(h, request, hb);
    AllocPushes(h, request);
    UsedDistinct(h', hb);
    assert h'.top <= h'.lmt && h'.used[0] == b;
    hide *;
    FreshKey(h.used, b);
  }

  /** A free block at the top, which the limit lets grow or shrink to `n` bytes. */
  predicate AtTop(h: Heap, f: Block, n: nat) {
    f.End() == h.top && f.addr + n <= h.lmt
  }

  /** The granted block `b` is made of the first free block that serves, number `i`, or it is a new one at the top. */
  ghost predicate GrantedFrom(h: Heap, n: nat, i: nat, b: Block, top: nat) {
    && i <= |h.free|
    && (forall j :: 0 <= j < i ==> h.free[j].size < n && !AtTop(h, h.free[j], n))
    && if i == |h.free| then
         b == Block(h.top, n) && top == h.top + n <= h.lmt && h.spare > 0
       else
         var f := h.free[i];
         b.addr == f.addr &&
         if AtTop(h, f, n) then b.size == n && top == b.End()
         else n <= f.size && top == h.top && b.size == if h.spare > 0 && f.size - n >= h.sth then n else f.size
  }

  lemma TakeIs(h: Heap, n: nat, i: nat)
    requires i < |h.free| && HeapModel.Fits(h, h.free[i], n)
    ensures var f, g, b := h.free[i], Take(h, n, i).0, Take(h, n, i).1;
            && b.addr == f.addr
            && (if IsTop(h, f, n) then b.size == n && g.top == Add32(f.addr, n)
                else g.top == h.top && b.size == if h.spare > 0 && f.size - n >= h.sth then n else f.size)
  {
    hide PutBack, IsTop;
    PutBackRest();
  }

  lemma TopIs(h: Heap, hb: nat, n: nat, j: nat)
    requires Inv(h, hb) && j < |h.free| && h.free[j].addr + n < U32
    ensures IsTop(h, h.free[j], n) <==> AtTop(h, h.free[j], n)
    ensures HeapModel.Fits(h, h.free[j], n) <==> AtTop(h, h.free[j], n) || n <= h.free[j].size
  {
    FreeInside(h, j, hb);
    hide Inv;
  }

  /** Rounding up gives the least multiple. */
  lemma LeastMultiple(request: nat, aln: nat, n: nat)
    requires aln > 0 && request <= n < request + aln && n % aln == 0 && request + aln - 1 < U32
    ensures Align32(request, aln) == n
  {
    var r := Align32(request, aln);
    hide Align32;
    ModAdd(r, n, aln);
    DivMod(r - n, aln);
    MulGrows(aln, (r - n) / aln);
  }

  /**
   Where a request is served and with how much: `n` is the least multiple of the alignment that holds it. The
   first free block that serves is taken, and it is cut to `n` bytes unless less than the threshold would be
   left of it or no record is spare. Free blocks stand in the order of their addresses, so it is the lowest one.
   */
  lemma GrantExact(h: Heap, request: nat, n: nat, hb: nat) returns (i: nat)
    requires Inv(h, hb) && request <= n < request + h.aln && n % h.aln == 0
    requires request + h.aln - 1 < U32 && h.lmt + n < U32 && Alloc(h, request).Granted?
    ensures GrantedFrom(h, n, i, Alloc(h, request).block, Alloc(h, request).heap.top)
  {
    LeastMultiple(request, h.aln, n);
    i := FirstFit(h, n, 0);
    forall j | 0 <= j < |h.free| ensures h.free[j].addr + n < U32 {
      FreeInside(h, j, hb);
    }
    forall j | 0 <= j < i ensures h.free[j].size < n && !AtTop(h, h.free[j], n) {
      TopIs(h, hb, n, j);
    }
    if i < |h.free| {
      TopIs(h, hb, n, i);
      TakeIs(h, n, i);
    }
    assert h.top <= h.lmt;
    hide Take, FirstFit, Inv, Align32, IsTop;
  }

  /**
   No free block is large enough, none can grow at the top, and the top cannot move up. The sums are those of
   32-bit words: with a larger one a request meets room that is not there, which AllocExact is about.
   */
  ghost predicate NoRoom(h: Heap, size: nat) {
    && (forall b :: b in h.free ==> b.size < size && (b.End() == h.top ==> h.lmt < Add32(b.addr, size)))
    && (h.spare == 0 || h.lmt < Add32(h.top, size))
  }

  /** VM_alloc answers 0 exactly when there is no room. */
  lemma RefusedExactly(h: Heap, request: nat, hb: nat)
    requires Inv(h, hb)
    ensures Alloc(h, request).Refused? <==> NoRoom(h, Align32(request, h.aln))
  {
    var size := Align32(request, h.aln);
    var i := FirstFit(h, size, 0);
    var o :| Tiling(o, h, hb);
    hide Sane, Chain;
    BoundedBy(h.free, multiset(h.used), o, hb, h.top);
    if i == |h.free| {
      forall b | b in h.free
        ensures b.size < size && (b.End() == h.top ==> h.lmt < Add32(b.addr, size))
      {
        var k :| 0 <= k < |h.free| && h.free[k] == b;
        assert !Fits(h, h.free[k], size);
      }
    } else {
      assert h.free[i] in h.free && Fits(h, h.free[i], size);
    }
  }

  lemma FreeUsed(h: Heap, a: nat)
    ensures var i := Find(h.used, a);
            if a != 0 && i < |h.used| then Free(h, a).1 && Free(h, a).0.used == h.used[..i] + h.used[i + 1..]
            else Free(h, a) == (h, false)
  {
    hide Compact, Insert, Find;
  }

  /** VM_free succeeds exactly on a live address, and removes that interval only. */
  lemma FreeRemovesInterval(h: Heap, a: nat, hb: nat)
    requires Inv(h, hb)
    ensures Free(h, a).1 <==> a in Live(h.used)
    ensures Live(Free(h, a).0.used) == Live(h.used) - {a}
  {
    UsedDistinct(h, hb);
    hide Inv, Distinct, Live, Find, PutBack, Compact, Insert;
    LiveKeys(h.used, a);
    FreeUsed(h, a);
    var i := Find(h.used, a);
    if i < |h.used| {
      assert h.used[i].addr == a;
      LiveRemove(h.used, i);
    } else {
      assert Live(h.used) - {a} == Live(h.used);
    }
  }

  /** A second free of the same address fails and changes nothing. */
  lemma SecondFreeFails(h: Heap, a: nat, hb: nat)
    requires Inv(h, hb)
    ensures Free(Free(h, a).0, a) == (Free(h, a).0, false)
  {
    FreeKeeps(h, a, hb);
    FreeRemovesInterval(h, a, hb);
    FreeRemovesInterval(Free(h, a).0, a, hb);
  }

  // ---------------------------------------------------------------------------------------------
  // No permanent fragmentation
  // ---------------------------------------------------------------------------------------------

  lemma SameLength<T>(a: seq<T>, b: seq<T>)
    requires multiset(a) == multiset(b)
    ensures |a| == |b|
  {
    assert |multiset(a)| == |a| && |multiset(b)| == |b|;
  }

  /** With nothing in use, the free list is at most one block, and that block is all of [hb, top). */
  lemma OneBlockWhenIdle(h: Heap, hb: nat)
    requires Inv(h, hb) && h.used == []
    ensures h.free == if h.top == hb then [] else [Block(hb, h.top - hb)]
  {
    var o: seq<Block> :| Tiling(o, h, hb);
    hide Sane;
    ChainEnds(o, hb, h.top);
    assert multiset(o) == multiset(h.free);
    SameLength(o, h.free);
    if |o| >= 2 {
      var i := Locate(o, h.free, multiset{}, o[0]);
      var j := Locate(o, h.free, multiset{}, o[1]);
      assert false;
    } else if |o| == 1 {
      var i := Locate(o, h.free, multiset{}, o[0]);
    }
  }

  /** With nothing in use, every request that fits the whole heap is served, from its first address. */
  lemma IdleHeapServes(h: Heap, request: nat, hb: nat)
    requires Inv(h, hb) && h.used == [] && Records(h) > 0
    requires 0 < request && request + h.aln - 1 < U32 && Align32(request, h.aln) <= h.lmt - hb
    ensures Alloc(h, request).Granted? && Alloc(h, request).block == Block(hb, Align32(request, h.aln))
  {
    OneBlockWhenIdle(h, hb);
    var size := Align32(request, h.aln);
    if h.free != [] {
      assert IsTop(h, h.free[0], size);
    }
  }

  // ---------------------------------------------------------------------------------------------
  // Runs
  // ---------------------------------------------------------------------------------------------

  datatype Call = Request(size: nat) | Release(addr: nat)

  function Step(h: Heap, c: Call): (h': Heap)
    requires 0 < h.aln
    ensures h'.aln == h.aln && h'.lmt == h.lmt
  {
    match c
    case Request(n) => if Alloc(h, n).Granted? then Alloc(h, n).heap else h
    case Release(a) => Free(h, a).0
  }

  function Run(h: Heap, calls: seq<Call>): (h': Heap)
    requires 0 < h.aln
    ensures h'.aln == h.aln && h'.lmt == h.lmt
    decreases |calls|
  {
    if calls == [] then h else Run(Step(h, calls[0]), calls[1..])
  }

  /** Every request of the run meets the guard of AllocExact when it is made. */
  ghost predicate SafeRun(h: Heap, calls: seq<Call>)
    requires 0 < h.aln
    decreases |calls|
  {
    calls == [] ||
    ((calls[0].Request? ==> AllocSafe(h, calls[0].size)) && SafeRun(Step(h, calls[0]), calls[1..]))
  }

  lemma InitInv(blocks: nat, sth: nat, aln: nat, hb: nat, lmt: nat)
    requires 0 < aln && 0 < sth && 0 < hb <= lmt < U32
    ensures Inv(Init(blocks, sth, aln, hb, lmt), hb) && Records(Init(blocks, sth, aln, hb, lmt)) == blocks
  {
    assert Tiling([], Init(blocks, sth, aln, hb, lmt), hb);
  }

  lemma {:induction false} RunKeeps(h: Heap, calls: seq<Call>, hb: nat)
    requires Inv(h, hb) && SafeRun(h, calls)
    ensures Inv(Run(h, calls), hb) && Records(Run(h, calls)) == Records(h)
    decreases |calls|
  {
    if calls != [] {
      match calls[0] {
        case Request(n) =>
          AllocKeeps(h, n, hb);
          RecordsKept(h, n, 0);
        case Release(a) =>
          FreeKeeps(h, a, hb);
          RecordsKept(h, 0, a);
      }
      hide Inv, AllocSafe, Records;
      RunKeeps(Step(h, calls[0]), calls[1..], hb);
    }
  }

  function Releases(addrs: seq<nat>): (calls: seq<Call>)
    ensures |calls| == |addrs| && forall i :: 0 <= i < |addrs| ==> calls[i] == Release(addrs[i])
  {
    seq(|addrs|, i requires 0 <= i < |addrs| => Release(addrs[i]))
  }

  /** Freeing every live address, in any order, leaves nothing in use. */
  lemma {:induction false} ReleaseAll(h: Heap, addrs: seq<nat>, hb: nat)
    requires Inv(h, hb)
    requires forall a :: a in Live(h.used) ==> a in addrs
    ensures Inv(Run(h, Releases(addrs)), hb) && Run(h, Releases(addrs)).used == []
    ensures Records(Run(h, Releases(addrs))) == Records(h)
    decreases |addrs|
  {
    if addrs == [] {
      assert h.used != [] ==> h.used[0].addr in Live(h.used);
    } else {
      FreeKeeps(h, addrs[0], hb);
      FreeRemovesInterval(h, addrs[0], hb);
      RecordsKept(h, 0, addrs[0]);
      hide Inv, Records;
      var h' := Step(h, Release(addrs[0]));
      forall a | a in Live(h'.used)
        ensures a in addrs[1..]
      {
        assert a in Live(h.used) && a != addrs[0];
      }
      ReleaseAll(h', addrs[1..], hb);
      assert Releases(addrs)[1..] == Releases(addrs[1..]);
    }
  }

  /**
   No permanent fragmentation: whatever a run did, once every live block has been freed in any
   order the heap is one block again, and serves every request up to its full extent.
   */
  lemma NoPermanentFragmentation(blocks: nat, sth: nat, aln: nat, hb: nat, lmt: nat,
                                 calls: seq<Call>, addrs: seq<nat>, request: nat)
    requires 0 < blocks && 0 < aln && 0 < sth && 0 < hb <= lmt < U32
    requires SafeRun(Init(blocks, sth, aln, hb, lmt), calls)
    requires forall a :: a in Live(Run(Init(blocks, sth, aln, hb, lmt), calls).used) ==> a in addrs
    requires 0 < request && request + aln - 1 < U32 && Align32(request, aln) <= lmt - hb
    ensures var h := Run(Run(Init(blocks, sth, aln, hb, lmt), calls), Releases(addrs));
      && hb <= h.top && h.free == (if h.top == hb then [] else [Block(hb, h.top - hb)])
      && Alloc(h, request).Granted? && Alloc(h, request).block == Block(hb, Align32(request, aln))
  {
    var h0 := Init(blocks, sth, aln, hb, lmt);
    InitInv(blocks, sth, aln, hb, lmt);
    RunKeeps(h0, calls, hb);
    ReleaseAll(Run(h0, calls), addrs, hb);
    var h := Run(Run(h0, calls), Releases(addrs));
    OneBlockWhenIdle(h, hb);
    IdleHeapServes(h, request, hb);
  }
}
