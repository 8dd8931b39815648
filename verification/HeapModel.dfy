/**
 The VM heap as a value: what one call of VM_alloc or VM_free does to the three block lists,
 with 32-bit addition written out, and the laws that hold over whole runs of calls.

 A heap hands out blocks of the address range [hb, lmt). `free` is kept in address order, `used` in order of
 allocation (latest first), and `spare` (the fresh list of the program) counts the block records that
 describe no memory yet.
 */
module HeapModel {
  import opened Basics
  import opened Arithmetic

  datatype Block = Block(addr: nat, size: nat) {
    function End(): nat {
      addr + size
    }
  }

  datatype Heap = Heap(free: seq<Block>, used: seq<Block>, spare: nat, top: nat, sth: nat, lmt: nat, aln: nat)

  /** The answer of VM_alloc: the next heap, and the granted block if there is one. */
  datatype Grant = Granted(heap: Heap, block: Block) | Refused

  function Add32(a: nat, b: nat): (r: nat)
    ensures r < U32
    ensures a + b < U32 ==> r == a + b
  {
    (a + b) % U32
  }

  /** CynAlign for a power-of-two alignment, on 32-bit values. */
  function Align32(size: nat, aln: nat): (r: nat)
    requires aln > 0
    ensures r < U32 && r % aln == 0
    ensures size + aln - 1 < U32 ==> size <= r < size + aln
  {
    RoundDown(Add32(size, aln - 1), aln)
  }

  /** The position in front of the first block whose address is not below `a`. */
  function InsertPos(s: seq<Block>, a: nat): (p: nat)
    ensures p <= |s|
    ensures forall i :: 0 <= i < p ==> s[i].addr < a
    ensures p < |s| ==> a <= s[p].addr
  {
    if s == [] || a <= s[0].addr then 0 else 1 + InsertPos(s[1..], a)
  }

  function Insert(s: seq<Block>, b: Block): seq<Block> {
    var p := InsertPos(s, b.addr);
    s[..p] + [b] + s[p..]
  }

  predicate Touching(a: Block, b: Block) {
    Add32(a.addr, a.size) == b.addr
  }

  function Merged(a: Block, b: Block): Block {
    Block(a.addr, Add32(a.size, b.size))
  }

  /** Merges every run of touching neighbours into one block. */
  function Compact(s: seq<Block>): (r: seq<Block>)
    ensures |r| <= |s|
    decreases |s|
  {
    if |s| < 2 then
      s
    else if Touching(s[0], s[1]) then
      Compact([Merged(s[0], s[1])] + s[2..])
    else
      [s[0]] + Compact(s[1..])
  }

  /** The block ends the heap and can be resized to `size` bytes without passing the limit. */
  predicate IsTop(h: Heap, b: Block, size: nat) {
    Add32(b.addr, b.size) >= h.top && Add32(b.addr, size) <= h.lmt
  }

  predicate Fits(h: Heap, b: Block, size: nat) {
    IsTop(h, b, size) || b.size >= size
  }

  function FirstFit(h: Heap, size: nat, from: nat): (i: nat)
    requires from <= |h.free|
    ensures from <= i <= |h.free|
    ensures forall j :: from <= j < i ==> !Fits(h, h.free[j], size)
    ensures i < |h.free| ==> Fits(h, h.free[i], size)
    decreases |h.free| - from
  {
    if from == |h.free| || Fits(h, h.free[from], size) then from else FirstFit(h, size, from + 1)
  }

  /** Puts a block back into the free list and merges it with the neighbours it touches. */
  function PutBack(h: Heap, b: Block): Heap {
    var s := Insert(h.free, b);
    h.(free := Compact(s), spare := h.spare + |s| - |Compact(s)|)
  }

  /** Takes the free block at `i`: resizes it at the top, splits it, or hands it out whole. */
  function Take(h: Heap, size: nat, i: nat): (Heap, Block)
    requires i < |h.free| && Fits(h, h.free[i], size)
  {
    var b := h.free[i];
    var g := h.(free := h.free[..i] + h.free[i + 1..]);
    if IsTop(h, b, size) then
      var r := Block(b.addr, size);
      (g.(used := [r] + h.used, top := Add32(b.addr, size)), r)
    else if h.spare > 0 && b.size - size >= h.sth then
      var r := Block(b.addr, size);
      (PutBack(g.(used := [r] + h.used, spare := h.spare - 1), Block(Add32(b.addr, size), b.size - size)), r)
    else
      (g.(used := [b] + h.used), b)
  }

  function Alloc(h: Heap, request: nat): Grant
    requires h.aln > 0
  {
    var size := Align32(request, h.aln);
    var i := FirstFit(h, size, 0);
    if i < |h.free| then
      var (h', b) := Take(h, size, i);
      Granted(h', b)
    else if h.spare > 0 && Add32(h.top, size) <= h.lmt then
      var b := Block(h.top, size);
      Granted(h.(used := [b] + h.used, spare := h.spare - 1, top := Add32(h.top, size)), b)
    else
      Refused
  }

  /** The position of the first block that starts at `a`, or |s|. */
  function Find(s: seq<Block>, a: nat): (i: nat)
    ensures i <= |s|
    ensures forall j :: 0 <= j < i ==> s[j].addr != a
    ensures i < |s| ==> s[i].addr == a
  {
    if s == [] || s[0].addr == a then 0 else 1 + Find(s[1..], a)
  }

  /** VM_free: the next heap and whether a block was freed. */
  function Free(h: Heap, a: nat): (Heap, bool) {
    var i := Find(h.used, a);
    if a == 0 || i == |h.used| then
      (h, false)
    else
      (PutBack(h.(used := h.used[..i] + h.used[i + 1..]), h.used[i]), true)
  }

  function Init(blocks: nat, sth: nat, aln: nat, hb: nat, lmt: nat): Heap {
    Heap([], [], blocks, hb, sth, lmt, aln)
  }

  // ---------------------------------------------------------------------------------------------
  // The heap invariant
  // ---------------------------------------------------------------------------------------------

  function Sum(s: seq<Block>): nat {
    if s == [] then 0 else s[0].size + Sum(s[1..])
  }

  /** The blocks of `o`, in this order, cover [lo, hi) without gap or overlap. */
  ghost predicate Chain(o: seq<Block>, lo: nat, hi: nat) {
    if o == [] then lo == hi else o[0].addr == lo && Chain(o[1..], o[0].End(), hi)
  }

  ghost predicate Sane(b: Block, hb: nat, aln: nat)
    requires aln > 0
  {
    b.size > 0 && b.size % aln == 0 && b.addr >= hb && (b.addr - hb) % aln == 0
  }

  ghost predicate AllSane(s: seq<Block>, hb: nat, aln: nat)
    requires aln > 0
  {
    forall i :: 0 <= i < |s| ==> Sane(s[i], hb, aln)
  }

  ghost predicate Positive(s: seq<Block>) {
    forall i :: 0 <= i < |s| ==> s[i].size > 0
  }

  /** The free and used blocks, put in the order `o`, cover [hb, top) without gap or overlap. */
  ghost predicate Tiling(o: seq<Block>, h: Heap, hb: nat) {
    Chain(o, hb, h.top) && Positive(o) && multiset(o) == multiset(h.free) + multiset(h.used)
  }

  /** In address order, possibly touching. */
  ghost predicate Sorted(s: seq<Block>) {
    forall i, j :: 0 <= i < j < |s| ==> s[i].End() <= s[j].addr
  }

  /** In address order with a gap between any two. */
  ghost predicate Apart(s: seq<Block>) {
    forall i, j :: 0 <= i < j < |s| ==> s[i].End() < s[j].addr
  }

  ghost predicate Inv(h: Heap, hb: nat) {
    && 0 < h.aln && 0 < h.sth && 0 < hb <= h.top <= h.lmt < U32
    && (h.top - hb) % h.aln == 0
    && AllSane(h.free, hb, h.aln) && AllSane(h.used, hb, h.aln)
    && Apart(h.free)
    && exists o :: Tiling(o, h, hb)
  }

  // ---------------------------------------------------------------------------------------------
  // Chains
  // ---------------------------------------------------------------------------------------------

  lemma ChainConcat(a: seq<Block>, b: seq<Block>, lo: nat, hi: nat)
    ensures Chain(a + b, lo, hi) <==> Chain(a, lo, lo + Sum(a)) && Chain(b, lo + Sum(a), hi)
  {
    if a == [] {
      assert a + b == b;
    } else {
      assert (a + b)[1..] == a[1..] + b;
      ChainConcat(a[1..], b, a[0].End(), hi);
    }
  }

  lemma ChainEnds(o: seq<Block>, lo: nat, hi: nat)
    requires Chain(o, lo, hi)
    ensures hi == lo + Sum(o)
    ensures forall i :: 0 <= i < |o| ==> lo <= o[i].addr && o[i].End() <= hi
    ensures Sorted(o)
    ensures forall i :: 0 <= i < |o| - 1 ==> o[i].End() == o[i + 1].addr
  {
    if o != [] {
      ChainEnds(o[1..], o[0].End(), hi);
      forall i | 0 <= i < |o|
        ensures lo <= o[i].addr && o[i].End() <= hi
      {
        if i > 0 { assert o[i] == o[1..][i - 1]; }
      }
      forall i, j | 0 <= i < j < |o|
        ensures o[i].End() <= o[j].addr
      {
        assert o[j] == o[1..][j - 1];
        if i > 0 { assert o[i] == o[1..][i - 1]; }
      }
      forall i | 0 <= i < |o| - 1
        ensures o[i].End() == o[i + 1].addr
      {
        assert o[i + 1] == o[1..][i];
        if i > 0 { assert o[i] == o[1..][i - 1]; }
      }
    }
  }

  /** Replacing one block of a chain by a chain over the same addresses. */
  lemma ChainReplace(o: seq<Block>, k: nat, mid: seq<Block>, lo: nat, hi: nat)
    requires k < |o| && Chain(o, lo, hi) && Chain(mid, o[k].addr, o[k].End())
    ensures Chain(o[..k] + mid + o[k + 1..], lo, hi)
  {
    var pre, post := o[..k], o[k + 1..];
    assert o == pre + ([o[k]] + post);
    ChainConcat(pre, [o[k]] + post, lo, hi);
    assert ([o[k]] + post)[1..] == post;
    ChainEnds(mid, o[k].addr, o[k].End());
    ChainConcat(mid, post, o[k].addr, hi);
    ChainConcat(pre, mid + post, lo, hi);
    assert pre + mid + post == pre + (mid + post);
  }

  lemma Remove<T>(s: seq<T>, k: nat)
    requires k < |s|
    ensures multiset(s) == multiset(s[..k] + s[k + 1..]) + multiset{s[k]}
  {
    assert s == s[..k] + [s[k]] + s[k + 1..];
  }

  lemma Cancel<T>(a: multiset<T>, b: multiset<T>, c: multiset<T>)
    requires a + c == b + c
    ensures a == b
  {
    assert a == (a + c) - c == (b + c) - c == b;
  }

  lemma InsertMultiset(s: seq<Block>, b: Block)
    ensures multiset(Insert(s, b)) == multiset(s) + multiset{b}
  {
    var p := InsertPos(s, b.addr);
    assert s == s[..p] + s[p..];
  }

  lemma InsertSorted(s: seq<Block>, b: Block)
    requires Sorted(s) && b.size > 0
    requires forall i :: 0 <= i < |s| ==> s[i].size > 0 && (s[i].End() <= b.addr || b.End() <= s[i].addr)
    ensures Sorted(Insert(s, b))
  {
  }

  lemma Locate<T>(s: seq<T>, o: seq<T>, rest: multiset<T>, x: T) returns (k: nat)
    requires multiset(o) == multiset(s) + rest && x in s
    ensures k < |o| && o[k] == x
  {
    assert x in multiset(s);
    assert x in multiset(o);
    k :| 0 <= k < |o| && o[k] == x;
  }

  /** In a tiling, the block that starts where `o[k]` ends comes right after `o[k]`. */
  lemma Neighbour(o: seq<Block>, k: nat, m: nat, hb: nat, top: nat)
    requires Chain(o, hb, top) && forall i :: 0 <= i < |o| ==> o[i].size > 0
    requires k < |o| && m < |o| && o[k].End() == o[m].addr
    ensures m == k + 1
  {
    ChainEnds(o, hb, top);
  }

  function Join(a: Block, b: Block): Block {
    Block(a.addr, a.size + b.size)
  }

  lemma ChainJoin(pre: seq<Block>, a: Block, b: Block, post: seq<Block>, lo: nat, hi: nat)
    requires Chain(pre + [a, b] + post, lo, hi)
    ensures Chain(pre + [Join(a, b)] + post, lo, hi)
  {
    var two, one := [a, b] + post, [Join(a, b)] + post;
    assert pre + [a, b] + post == pre + two && pre + [Join(a, b)] + post == pre + one;
    ChainConcat(pre, two, lo, hi);
    assert two[1..] == [b] + post && ([b] + post)[1..] == post && one[1..] == post;
    ChainConcat(pre, one, lo, hi);
  }

  lemma Exchange<T(!new)>(pre: seq<T>, x: seq<T>, post: seq<T>, y: seq<T>, tail: seq<T>, rest: multiset<T>)
    requires multiset(pre + x + post) == multiset(x + tail) + rest
    ensures multiset(pre + y + post) == multiset(y + tail) + rest
  {
    var l, r := multiset(pre + y + post), multiset(y + tail) + rest;
    forall e: T
      ensures l[e] == r[e]
    {
      assert multiset(pre + x + post)[e] == multiset(pre)[e] + multiset(x)[e] + multiset(post)[e];
      assert (multiset(x + tail) + rest)[e] == multiset(x)[e] + multiset(tail)[e] + rest[e];
    }
    assert l == r;
  }

  /** Two touching blocks at the front of `s` may be replaced by one. */
  lemma MergeFront(s: seq<Block>, rest: multiset<Block>, o: seq<Block>, hb: nat, top: nat)
    returns (o': seq<Block>)
    requires |s| >= 2 && s[0].End() == s[1].addr
    requires Chain(o, hb, top) && Positive(o)
    requires multiset(o) == multiset(s) + rest
    ensures Chain(o', hb, top) && Positive(o')
    ensures multiset(o') == multiset([Join(s[0], s[1])] + s[2..]) + rest
  {
    var k := Locate(s, o, rest, s[0]);
    var m := Locate(s, o, rest, s[1]);
    Neighbour(o, k, m, hb, top);
    var pre, post := o[..k], o[k + 2..];
    assert o == pre + [s[0], s[1]] + post;
    ChainJoin(pre, s[0], s[1], post, hb, top);
    o' := pre + [Join(s[0], s[1])] + post;
    assert s == [s[0], s[1]] + s[2..];
    Exchange(pre, [s[0], s[1]], post, [Join(s[0], s[1])], s[2..], rest);
  }

  /** Compact where no address wraps around. */
  lemma CompactStep(s: seq<Block>, top: nat)
    requires |s| >= 2 && top < U32 && s[0].End() <= top && s[1].End() <= top
    ensures s[0].End() == s[1].addr ==> Compact(s) == Compact([Join(s[0], s[1])] + s[2..])
    ensures s[0].End() != s[1].addr ==> Compact(s) == [s[0]] + Compact(s[1..])
  {
    assert Touching(s[0], s[1]) <==> s[0].End() == s[1].addr;
    if s[0].End() == s[1].addr {
      assert Merged(s[0], s[1]) == Join(s[0], s[1]);
    }
  }

  lemma MoveOne<T>(c: seq<T>, rest: multiset<T>, x: T)
    ensures multiset(c) + (rest + multiset{x}) == multiset([x] + c) + rest
  {
  }

  lemma {:induction false} CompactHead(s: seq<Block>)
    requires s != []
    ensures Compact(s) != [] && Compact(s)[0].addr == s[0].addr
    decreases |s|
  {
    if |s| >= 2 && Touching(s[0], s[1]) {
      CompactHead([Merged(s[0], s[1])] + s[2..]);
    }
  }

  lemma BoundedBy(s: seq<Block>, rest: multiset<Block>, o: seq<Block>, hb: nat, top: nat)
    requires Chain(o, hb, top) && multiset(o) == multiset(s) + rest
    ensures forall i :: 0 <= i < |s| ==> hb <= s[i].addr && s[i].End() <= top
  {
    ChainEnds(o, hb, top);
    forall i | 0 <= i < |s|
      ensures hb <= s[i].addr && s[i].End() <= top
    {
      var k := Locate(s, o, rest, s[i]);
    }
  }

  lemma SortedTail(s: seq<Block>)
    requires |s| >= 2 && Sorted(s)
    ensures Sorted(s[1..]) && s[0].End() <= s[1].addr
    ensures s[0].End() == s[1].addr ==> Sorted([Join(s[0], s[1])] + s[2..])
  {
  }

  lemma ApartCons(b: Block, c: seq<Block>)
    requires Apart(c) && c != [] && b.End() < c[0].addr
    ensures Apart([b] + c)
  {
    forall j | 0 <= j < |c|
      ensures b.End() < c[j].addr
    {
      assert j == 0 || c[0].End() < c[j].addr;
    }
  }

  /** Merging keeps order, opens a gap between any two, and keeps the tiling. */
  lemma CompactTiling(s: seq<Block>, rest: multiset<Block>, o: seq<Block>, hb: nat, top: nat)
    returns (o': seq<Block>)
    requires top < U32 && Sorted(s)
    requires Chain(o, hb, top) && Positive(o)
    requires multiset(o) == multiset(s) + rest
    ensures Chain(o', hb, top) && Positive(o')
    ensures multiset(o') == multiset(Compact(s)) + rest
    ensures Apart(Compact(s))
    ensures s != [] ==> Compact(s) != [] && Compact(s)[0].addr == s[0].addr
    decreases |s|
  {
    if |s| < 2 {
      o' := o;
      return;
    }
    hide Chain, Positive, Sorted, Apart;
    SortedTail(s);
    BoundedBy(s, rest, o, hb, top);
    CompactStep(s, top);
    CompactHead(s);
    hide Compact;
    var t := s[1..];
    assert s == [s[0]] + t;
    if s[0].End() == s[1].addr {
      o' := MergeFront(s, rest, o, hb, top);
      var s' := [Join(s[0], s[1])] + s[2..];
      o' := CompactTiling(s', rest, o', hb, top);
    } else {
      MoveOne(t, rest, s[0]);
      o' := CompactTiling(t, rest + multiset{s[0]}, o, hb, top);
      ApartCons(s[0], Compact(t));
      MoveOne(Compact(t), rest, s[0]);
    }
  }

  lemma SaneJoin(a: Block, b: Block, hb: nat, aln: nat)
    requires aln > 0 && Sane(a, hb, aln) && Sane(b, hb, aln)
    ensures Sane(Join(a, b), hb, aln)
  {
    ModAdd(a.size, b.size, aln);
  }

  lemma AllSaneCons(b: Block, s: seq<Block>, hb: nat, aln: nat)
    requires aln > 0 && Sane(b, hb, aln) && AllSane(s, hb, aln)
    ensures AllSane([b] + s, hb, aln)
  {
    hide Sane;
  }

  lemma CompactSane(s: seq<Block>, hb: nat, aln: nat, top: nat)
    requires 0 < aln && AllSane(s, hb, aln)
    requires top < U32 && forall i :: 0 <= i < |s| ==> s[i].End() <= top
    ensures AllSane(Compact(s), hb, aln)
    decreases |s|
  {
    hide Sane;
    if |s| < 2 {
      return;
    }
    CompactStep(s, top);
    hide Compact;
    if s[0].End() == s[1].addr {
      SaneJoin(s[0], s[1], hb, aln);
      AllSaneCons(Join(s[0], s[1]), s[2..], hb, aln);
      CompactSane([Join(s[0], s[1])] + s[2..], hb, aln, top);
    } else {
      CompactSane(s[1..], hb, aln, top);
      AllSaneCons(s[0], Compact(s[1..]), hb, aln);
    }
  }

  // ---------------------------------------------------------------------------------------------
  // What one call keeps
  // ---------------------------------------------------------------------------------------------

  /** Inv with the block `extra` in neither list: the state between unlinking and putting back. */
  ghost predicate InvBut(h: Heap, extra: Block, o: seq<Block>, hb: nat) {
    && 0 < h.aln && 0 < h.sth && 0 < hb <= h.top <= h.lmt < U32
    && (h.top - hb) % h.aln == 0
    && AllSane(h.free, hb, h.aln) && AllSane(h.used, hb, h.aln) && Sane(extra, hb, h.aln)
    && Apart(h.free)
    && Chain(o, hb, h.top) && Positive(o)
    && multiset(o) == multiset(h.free) + multiset(h.used) + multiset{extra}
  }

  lemma AllSaneInsert(s: seq<Block>, b: Block, hb: nat, aln: nat)
    requires aln > 0 && AllSane(s, hb, aln) && Sane(b, hb, aln)
    ensures AllSane(Insert(s, b), hb, aln)
  {
    hide Sane;
  }

  lemma AllSaneRemove(s: seq<Block>, p: nat, hb: nat, aln: nat)
    requires aln > 0 && p < |s| && AllSane(s, hb, aln)
    ensures AllSane(s[..p] + s[p + 1..], hb, aln) && Sane(s[p], hb, aln)
  {
    hide Sane;
  }

  lemma LocateTwo<T>(o: seq<T>, rest: multiset<T>, a: T, b: T) returns (k: nat, m: nat)
    requires multiset(o) == rest + multiset{b} && a in rest
    ensures k < |o| && m < |o| && k != m && o[k] == a && o[m] == b
  {
    assert b in multiset(o);
    m :| 0 <= m < |o| && o[m] == b;
    Remove(o, m);
    var others := o[..m] + o[m + 1..];
    Cancel(multiset(others), rest, multiset{b});
    assert a in multiset(others);
    var n :| 0 <= n < |others| && others[n] == a;
    k := if n < m then n else n + 1;
  }

  /** Two entries of a tiling do not overlap. */
  lemma NoOverlap(o: seq<Block>, rest: multiset<Block>, a: Block, b: Block, hb: nat, top: nat)
    requires Chain(o, hb, top) && multiset(o) == rest + multiset{b} && a in rest
    ensures a.End() <= b.addr || b.End() <= a.addr
  {
    var k, m := LocateTwo(o, rest, a, b);
    ChainEnds(o, hb, top);
  }

  lemma SanePositive(s: seq<Block>, hb: nat, aln: nat)
    requires aln > 0 && AllSane(s, hb, aln)
    ensures Positive(s)
  {
  }

  lemma InsertKeepsOrder(h: Heap, b: Block, o: seq<Block>, hb: nat)
    requires InvBut(h, b, o, hb)
    ensures Sorted(Insert(h.free, b))
  {
    hide Chain;
    SanePositive(h.free, hb, h.aln);
    SanePositive([b], hb, h.aln);
    assert [b][0].size > 0;
    hide Sane;
    forall i | 0 <= i < |h.free|
      ensures h.free[i].End() <= b.addr || b.End() <= h.free[i].addr
    {
      assert h.free[i] in multiset(h.free);
      NoOverlap(o, multiset(h.free) + multiset(h.used), h.free[i], b, hb, h.top);
    }
    InsertSorted(h.free, b);
  }

  lemma PutBackKeeps(h: Heap, b: Block, o: seq<Block>, hb: nat)
    requires InvBut(h, b, o, hb)
    ensures Inv(PutBack(h, b), hb)
  {
    hide Sane, AllSane, Chain, Positive, Apart, Sorted, Compact, Insert, InsertPos;
    var s := Insert(h.free, b);
    InsertKeepsOrder(h, b, o, hb);
    InsertMultiset(h.free, b);
    AllSaneInsert(h.free, b, hb, h.aln);
    var o' := CompactTiling(s, multiset(h.used), o, hb, h.top);
    BoundedBy(s, multiset(h.used), o, hb, h.top);
    CompactSane(s, hb, h.aln, h.top);
    assert Tiling(o', PutBack(h, b), hb);
  }

  lemma FreeAtKeeps(h: Heap, i: nat, hb: nat)
    requires Inv(h, hb) && i < |h.used|
    ensures Inv(PutBack(h.(used := h.used[..i] + h.used[i + 1..]), h.used[i]), hb)
  {
    hide Sane, Chain, Positive, Apart, PutBack;
    var o :| Tiling(o, h, hb);
    Remove(h.used, i);
    AllSaneRemove(h.used, i, hb, h.aln);
    PutBackKeeps(h.(used := h.used[..i] + h.used[i + 1..]), h.used[i], o, hb);
  }

  lemma FreeKeeps(h: Heap, a: nat, hb: nat)
    requires Inv(h, hb)
    ensures Inv(Free(h, a).0, hb)
  {
    hide Inv, PutBack, Find;
    var i := Find(h.used, a);
    if a != 0 && i < |h.used| {
      FreeAtKeeps(h, i, hb);
    }
  }

  function Records(h: Heap): nat {
    |h.free| + |h.used| + h.spare
  }

  /** No call makes or loses a block record. */
  lemma RecordsKept(h: Heap, request: nat, a: nat)
    requires 0 < h.aln
    ensures Alloc(h, request).Granted? ==> Records(Alloc(h, request).heap) == Records(h)
    ensures Records(Free(h, a).0) == Records(h)
  {
  }

  /** The chosen branch of VM_alloc neither wraps around nor makes an empty block. */
  predicate AllocSafe(h: Heap, request: nat)
    requires 0 < h.aln
  {
    var size := Align32(request, h.aln);
    var i := FirstFit(h, size, 0);
    if i < |h.free| then
      var b := h.free[i];
      if IsTop(h, b, size) then
        request <= size && 0 < size && b.addr + size < U32
      else
        request <= (if h.spare > 0 && b.size - size >= h.sth then size else b.size)
        && (h.spare > 0 && b.size - size >= h.sth ==> 0 < size)
    else
      h.spare > 0 && Add32(h.top, size) <= h.lmt ==> request <= size && 0 < size && h.top + size < U32
  }

  lemma FreeWithout(h: Heap, i: nat, hb: nat)
    requires Inv(h, hb) && i < |h.free|
    ensures var rest := h.free[..i] + h.free[i + 1..];
      && AllSane(rest, hb, h.aln) && Sane(h.free[i], hb, h.aln) && Apart(rest)
      && multiset(h.free) == multiset(rest) + multiset{h.free[i]}
  {
    hide Sane, Chain;
    AllSaneRemove(h.free, i, hb, h.aln);
    Remove(h.free, i);
  }

  lemma SaneSlice(b: Block, size: nat, hb: nat, aln: nat)
    requires aln > 0 && Sane(b, hb, aln) && size % aln == 0 && size > 0
    ensures Sane(Block(b.addr, size), hb, aln)
    ensures size < b.size ==> Sane(Block(b.addr + size, b.size - size), hb, aln)
    ensures (b.addr + size - hb) % aln == 0
  {
    ModAdd(b.addr - hb, size, aln);
    ModAdd(b.size, size, aln);
  }

  lemma SingleChain(b: Block, lo: nat, hi: nat)
    ensures Chain([b], lo, hi) <==> b.addr == lo && b.End() == hi
  {
    assert [b][1..] == [];
  }

  lemma PositiveLast(pre: seq<Block>, b: Block, r: Block)
    requires r.size > 0
    ensures Positive(pre + [b]) ==> Positive(pre + [r])
  {
    forall i | Positive(pre + [b]) && 0 <= i < |pre + [r]| ensures (pre + [r])[i].size > 0 {
      assert i < |pre| ==> (pre + [r])[i] == (pre + [b])[i];
    }
  }

  lemma ChainResizeLast(o: seq<Block>, k: nat, size: nat, lo: nat, hi: nat)
    requires Chain(o, lo, hi) && Positive(o) && k < |o| && o[k].End() == hi && size > 0
    ensures k == |o| - 1
    ensures Chain(o[..k] + [Block(o[k].addr, size)], lo, o[k].addr + size)
    ensures Positive(o[..k] + [Block(o[k].addr, size)])
  {
    ChainEnds(o, lo, hi);
    assert k + 1 < |o| ==> o[k + 1].size > 0;
    var pre, r := o[..k], Block(o[k].addr, size);
    PositiveLast(pre, o[k], r);
    hide Chain, Sorted, Positive;
    assert o == pre + [o[k]];
    ChainConcat(pre, [o[k]], lo, hi);
    SingleChain(o[k], lo + Sum(pre), hi);
    SingleChain(r, lo + Sum(pre), r.End());
    ChainConcat(pre, [r], lo, r.End());
  }

  lemma Regroup<T(!new)>(pre: multiset<T>, post: multiset<T>, rest: multiset<T>, used: multiset<T>,
                         b: multiset<T>, c: multiset<T>)
    requires pre + b + post == rest + b + used
    ensures pre + c + post == rest + used + c
  {
    forall e: T
      ensures (pre + c + post)[e] == (rest + used + c)[e]
    {
      assert (pre + b + post)[e] == pre[e] + b[e] + post[e] && (rest + b + used)[e] == rest[e] + b[e] + used[e];
    }
  }

  lemma ResizeCount<T(!new)>(o: seq<T>, k: nat, free: seq<T>, rest: seq<T>, used: seq<T>, r: T)
    requires k < |o| && k == |o| - 1 && multiset(o) == multiset(free) + multiset(used)
    requires multiset(free) == multiset(rest) + multiset{o[k]}
    ensures multiset(o[..k] + [r]) == multiset(rest) + multiset([r] + used)
  {
    var pre := o[..k];
    assert o == pre + [o[k]];
    Regroup(multiset(pre), multiset{}, multiset(rest), multiset(used), multiset{o[k]}, multiset{r});
  }

  lemma TakeTopKeeps(h: Heap, size: nat, i: nat, hb: nat)
    requires Inv(h, hb) && i < |h.free| && IsTop(h, h.free[i], size)
    requires size % h.aln == 0 && 0 < size && h.free[i].addr + size < U32
    ensures Inv(Take(h, size, i).0, hb)
  {
    hide Sane, Chain, Positive, Apart, AllSane;
    var b := h.free[i];
    var o :| Tiling(o, h, hb);
    BoundedBy(h.free, multiset(h.used), o, hb, h.top);
    FreeWithout(h, i, hb);
    assert b in h.free;
    var k := Locate(h.free, o, multiset(h.used), b);
    Remove(o, k);
    ChainResizeLast(o, k, size, hb, h.top);
    SaneSlice(b, size, hb, h.aln);
    AllSaneCons(Block(b.addr, size), h.used, hb, h.aln);
    var h' := Take(h, size, i).0;
    var o' := o[..k] + [Block(b.addr, size)];
    var rest := h.free[..i] + h.free[i + 1..];
    ResizeCount(o, k, h.free, rest, h.used, Block(b.addr, size));
    assert h' == h.(free := rest, used := [Block(b.addr, size)] + h.used, top := b.addr + size);
    assert Tiling(o', h', hb);
  }

  lemma ChainSplit(o: seq<Block>, k: nat, size: nat, lo: nat, hi: nat)
    requires Chain(o, lo, hi) && Positive(o) && k < |o| && 0 < size < o[k].size
    ensures var two := [Block(o[k].addr, size), Block(o[k].addr + size, o[k].size - size)];
      && Chain(o[..k] + two + o[k + 1..], lo, hi) && Positive(o[..k] + two + o[k + 1..])
  {
    var two := [Block(o[k].addr, size), Block(o[k].addr + size, o[k].size - size)];
    assert two[1..][1..] == [];
    ChainReplace(o, k, two, lo, hi);
  }

  lemma SplitCount<T(!new)>(o: seq<T>, k: nat, free: seq<T>, rest: seq<T>, used: seq<T>, r: T, x: T)
    requires k < |o| && multiset(o) == multiset(free) + multiset(used)
    requires multiset(free) == multiset(rest) + multiset{o[k]}
    ensures multiset(o[..k] + [r, x] + o[k + 1..]) == multiset(rest) + multiset([r] + used) + multiset{x}
  {
    var pre, post := o[..k], o[k + 1..];
    assert o == pre + [o[k]] + post;
    Regroup(multiset(pre), multiset(post), multiset(rest), multiset(used), multiset{o[k]}, multiset{r, x});
  }

  /** The tiling with one of the free blocks cut in two. */
  lemma SplitTiling(o: seq<Block>, free: seq<Block>, rest: seq<Block>, used: seq<Block>, b: Block, size: nat,
                    hb: nat, top: nat) returns (two: seq<Block>)
    requires Chain(o, hb, top) && Positive(o) && multiset(o) == multiset(free) + multiset(used)
    requires multiset(free) == multiset(rest) + multiset{b} && b in free && 0 < size < b.size
    ensures Chain(two, hb, top) && Positive(two)
    ensures multiset(two) == multiset(rest) + multiset([Block(b.addr, size)] + used)
                             + multiset{Block(b.addr + size, b.size - size)}
  {
    hide *;
    var k := Locate(free, o, multiset(used), b);
    ChainSplit(o, k, size, hb, top);
    var r, x := Block(b.addr, size), Block(b.addr + size, b.size - size);
    two := o[..k] + [r, x] + o[k + 1..];
    SplitCount(o, k, free, rest, used, r, x);
  }

  /** A free block starts and ends inside the heap. */
  lemma FreeInside(h: Heap, i: nat, hb: nat)
    requires Inv(h, hb) && i < |h.free|
    ensures hb <= h.free[i].addr && h.free[i].End() <= h.top < U32
  {
    var o :| Tiling(o, h, hb);
    hide Sane, Chain, Positive, Apart, AllSane;
    BoundedBy(h.free, multiset(h.used), o, hb, h.top);
  }

  /** The blocks that come from cutting free block `i` in two. */
  lemma SplitSane(h: Heap, size: nat, i: nat, hb: nat)
    requires Inv(h, hb) && i < |h.free| && size % h.aln == 0 && 0 < size < h.free[i].size
    ensures var b := h.free[i];
            Sane(Block(b.addr + size, b.size - size), hb, h.aln) && AllSane([Block(b.addr, size)] + h.used, hb, h.aln)
  {
    hide Sane, Chain, Positive, Apart, Tiling;
    var b := h.free[i];
    assert Sane(b, hb, h.aln);
    SaneSlice(b, size, hb, h.aln);
    AllSaneCons(Block(b.addr, size), h.used, hb, h.aln);
  }

  /** What is left when free block `i` is cut in two: its first part is in use, its second part not yet anywhere. */
  lemma SplitInv(h: Heap, size: nat, i: nat, hb: nat, g: Heap, x: Block) returns (two: seq<Block>)
    requires Inv(h, hb) && i < |h.free| && h.spare > 0 && size % h.aln == 0 && 0 < size < h.free[i].size
    requires x == Block(h.free[i].addr + size, h.free[i].size - size)
    requires g == h.(free := h.free[..i] + h.free[i + 1..], used := [Block(h.free[i].addr, size)] + h.used,
                     spare := h.spare - 1)
    ensures InvBut(g, x, two, hb)
  {
    hide Sane, Chain, Positive, Apart, AllSane;
    var o :| Tiling(o, h, hb);
    FreeWithout(h, i, hb);
    SplitSane(h, size, i, hb);
    two := SplitTiling(o, h.free, g.free, h.used, h.free[i], size, hb, h.top);
  }

  lemma TakeSplitIs(h: Heap, size: nat, i: nat, g: Heap, x: Block)
    requires i < |h.free| && !IsTop(h, h.free[i], size) && h.free[i].size >= size && h.free[i].addr + size < U32
    requires h.spare > 0 && h.free[i].size - size >= h.sth
    requires x == Block(h.free[i].addr + size, h.free[i].size - size)
    requires g == h.(free := h.free[..i] + h.free[i + 1..], used := [Block(h.free[i].addr, size)] + h.used,
                     spare := h.spare - 1)
    ensures Take(h, size, i).0 == PutBack(g, x)
  {
    hide PutBack, IsTop;
  }

  lemma TakeSplitKeeps(h: Heap, size: nat, i: nat, hb: nat)
    requires Inv(h, hb) && i < |h.free| && !IsTop(h, h.free[i], size) && h.free[i].size >= size
    requires h.spare > 0 && h.free[i].size - size >= h.sth
    requires size % h.aln == 0 && 0 < size
    ensures Inv(Take(h, size, i).0, hb)
  {
    assert 0 < h.sth;
    hide *;
    FreeInside(h, i, hb);
    var b := h.free[i];
    var g := h.(free := h.free[..i] + h.free[i + 1..], used := [Block(b.addr, size)] + h.used, spare := h.spare - 1);
    var x := Block(b.addr + size, b.size - size);
    TakeSplitIs(h, size, i, g, x);
    var two := SplitInv(h, size, i, hb, g, x);
    PutBackKeeps(g, x, two, hb);
  }

  lemma TakeWholeKeeps(h: Heap, size: nat, i: nat, hb: nat)
    requires Inv(h, hb) && i < |h.free| && !IsTop(h, h.free[i], size) && h.free[i].size >= size
    requires h.spare == 0 || h.free[i].size - size < h.sth
    ensures Inv(Take(h, size, i).0, hb)
  {
    hide Sane, Chain, Positive, Apart, AllSane;
    var o :| Tiling(o, h, hb);
    FreeWithout(h, i, hb);
    AllSaneCons(h.free[i], h.used, hb, h.aln);
    assert Tiling(o, Take(h, size, i).0, hb);
  }

  lemma PositivePush(o: seq<Block>, b: Block)
    requires Positive(o) && b.size > 0
    ensures Positive(o + [b])
  {
  }

  /** A new block at the top. */
  lemma TilingGrows(o: seq<Block>, b: Block, hb: nat, top: nat)
    requires Chain(o, hb, top) && Positive(o) && b.addr == top && b.size > 0
    ensures Chain(o + [b], hb, top + b.size) && Positive(o + [b])
  {
    ChainEnds(o, hb, top);
    ChainConcat(o, [b], hb, top + b.size);
    PositivePush(o, b);
  }

  lemma GrowKeeps(h: Heap, size: nat, hb: nat)
    requires Inv(h, hb) && h.spare > 0 && h.top + size <= h.lmt && size % h.aln == 0 && 0 < size
    ensures Inv(h.(used := [Block(h.top, size)] + h.used, spare := h.spare - 1, top := h.top + size), hb)
  {
    var b := Block(h.top, size);
    var h' := h.(used := [b] + h.used, spare := h.spare - 1, top := h.top + size);
    var o :| Tiling(o, h, hb);
    assert Sane(b, hb, h.aln);
    hide Sane, Chain, Positive, Apart, AllSane;
    TilingGrows(o, b, hb, h.top);
    ModAdd(h.top - hb, size, h.aln);
    AllSaneCons(b, h.used, hb, h.aln);
    assert Tiling(o + [b], h', hb);
  }

  lemma AllocKeeps(h: Heap, request: nat, hb: nat)
    requires Inv(h, hb) && AllocSafe(h, request)
    ensures Alloc(h, request).Granted? ==> Inv(Alloc(h, request).heap, hb) && request <= Alloc(h, request).block.size
  {
    var size := Align32(request, h.aln);
    var i := FirstFit(h, size, 0);
    hide Inv, FirstFit;
    if i < |h.free| {
      if IsTop(h, h.free[i], size) {
        TakeTopKeeps(h, size, i, hb);
      } else if h.spare > 0 && h.free[i].size - size >= h.sth {
        TakeSplitKeeps(h, size, i, hb);
      } else {
        TakeWholeKeeps(h, size, i, hb);
      }
    } else if h.spare > 0 && Add32(h.top, size) <= h.lmt {
      GrowKeeps(h, size, hb);
    }
  }
}
