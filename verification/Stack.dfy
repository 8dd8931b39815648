/** Stack, heap and data in one RAM: the layout at start, and why pushes never reach the heap. */
module Stack {
  import opened Basics
  import opened Bytes
  import opened Machine
  import opened Calls
  import H = HeapModel
  import HeapLaws
  import opened Arithmetic

  const WORD: nat := 8
  /** sizeof(Heap) and sizeof(HeapBlock), both packed. */
  const HEAP_HEADER: nat := 37
  const HEAP_BLOCK: nat := 16

  // ---------------------------------------------------------------------------------------------
  // Layout
  // ---------------------------------------------------------------------------------------------

  /** The boundaries VM_memory_init computes; the heap's own records are not part of `size`. */
  datatype Layout = Layout(size: nat, sb: nat, hb: nat, hlm: nat)

  function RoundUp(n: nat): (r: nat)
    ensures n <= r < n + WORD
  {
    RoundDown(n + (WORD - 1), WORD)
  }

  /** VM_init_ and VM_memory_init, for the requested memory, records, stack size and data end. */
  function Initial(mem: nat, records: nat, ss: nat, db: nat): (l: Layout) {
    var bk := RoundUp(HEAP_HEADER + HEAP_BLOCK * records);
    var size := (RoundUp(mem + db + bk) - bk) % U32;
    var sb := (size - RoundUp(ss + WORD)) % U32;
    Layout(size, sb, db, (sb - WORD) % U32)
  }

  /** Data, heap, stack boundary and stack follow each other in RAM. */
  predicate Ordered(l: Layout) {
    l.hb <= l.hlm && l.hlm + WORD == l.sb && l.sb + WORD <= l.size
  }

  /** A 32-bit difference that may have gone below zero. */
  lemma Wrap(d: int)
    requires d < U32 && 0 <= d + U32
    ensures d % U32 == if d >= 0 then d else d + U32
  {
  }

  /** The regions are in order exactly when the memory leaves room for data, guard word and stack. */
  lemma LayoutExact(mem: nat, records: nat, ss: nat, db: nat)
    requires mem + db + HEAP_HEADER + HEAP_BLOCK * records + 2 * WORD < U32 && ss + 2 * WORD < U32
    ensures var bk := RoundUp(HEAP_HEADER + HEAP_BLOCK * records);
      Ordered(Initial(mem, records, ss, db)) <==> db + WORD + RoundUp(ss + WORD) <= RoundUp(mem + db + bk) - bk
  {
    var bk := RoundUp(HEAP_HEADER + HEAP_BLOCK * records);
    var size := RoundUp(mem + db + bk) - bk;
    var stack := RoundUp(ss + WORD);
    hide RoundUp;
    Wrap(size);
    Wrap(size - stack);
    Wrap((size - stack) % U32 - WORD);
  }

  lemma LeastRound(n: nat, r: nat)
    requires n <= r < n + WORD && r % WORD == 0
    ensures RoundUp(n) == r
  {
    var q := RoundUp(n);
    assert q % 8 == 0 && n <= q < n + 8;
  }

  lemma RoundIs(n: nat)
    ensures RoundUp(n) % WORD == 0
  {
  }

  lemma SumRound(a: nat, b: nat)
    requires a % WORD == 0 && b % WORD == 0
    ensures (a + b) % WORD == 0
  {
  }

  /** In an ordered layout no difference has wrapped around. */
  lemma OrderedSums(l: Layout, size: nat, stack: nat)
    requires Ordered(l) && size < U32 && stack < U32 && l.size == size % U32
    requires l.sb == (l.size - stack) % U32 && l.hlm == (l.sb - WORD) % U32
    ensures l.size == size && l.sb == size - stack && l.hlm == size - stack - WORD
  {
    Wrap(l.size - stack);
    Wrap(l.sb - WORD);
  }

  /**
   What the regions hold: the data end where they are said to, the RAM has the least multiple of 8 bytes for data
   and requested memory, and the stack the least multiple for the requested stack and a word.
   */
  lemma LayoutSizes(mem: nat, records: nat, ss: nat, db: nat, size: nat, stack: nat)
    requires mem + db + HEAP_HEADER + HEAP_BLOCK * records + 2 * WORD < U32 && ss + 2 * WORD < U32
    requires Ordered(Initial(mem, records, ss, db))
    requires mem + db <= size < mem + db + WORD && size % WORD == 0
    requires ss + WORD <= stack < ss + WORD + WORD && stack % WORD == 0
    ensures var l := Initial(mem, records, ss, db);
            l.size == size && l.sb + stack == size && l.hb == db && l.hlm + WORD + stack == size
  {
    hide RoundUp;
    var bk := RoundUp(HEAP_HEADER + HEAP_BLOCK * records);
    RoundIs(HEAP_HEADER + HEAP_BLOCK * records);
    SumRound(size, bk);
    LeastRound(mem + db + bk, size + bk);
    LeastRound(ss + WORD, stack);
    assert size < U32;
    Wrap(size - stack);
    OrderedSums(Initial(mem, records, ss, db), size, stack);
  }

  /** The marker that VM_init_ writes: eight bytes of 0xA3 up to address `ss`, whatever is there. */
  function Marked(ram: seq<Byte>, ss: nat): (r: seq<Byte>)
    requires 7 <= ss < |ram|
    ensures |r| == |ram|
  {
    ram[..ss - 7] + seq(8, i => 0xA3) + ram[ss + 1..]
  }

  lemma MarkedAt(ram: seq<Byte>, ss: nat, k: nat)
    requires 7 <= ss < |ram| && k < |ram|
    ensures Marked(ram, ss)[k] == if ss - 7 <= k <= ss then 0xA3 else ram[k]
  {
  }

  /**
   The address is a stack size and not one of the stack: the marker leaves the constants, which are below
   `db`, as they are exactly when they end below it.
   */
  lemma MarkerExact(n: nat, ss: nat, db: nat)
    requires 7 <= ss < n && db <= n
    ensures (forall ram: seq<Byte> :: |ram| == n ==> Marked(ram, ss)[..db] == ram[..db]) <==> db <= ss - 7
  {
    hide Marked;
    if db <= ss - 7 {
      forall ram: seq<Byte> | |ram| == n ensures Marked(ram, ss)[..db] == ram[..db] {
        forall k: nat | k < db ensures Marked(ram, ss)[k] == ram[k] {
          MarkedAt(ram, ss, k);
        }
      }
    } else {
      var ram: seq<Byte> := seq(n, i => 0);
      MarkedAt(ram, ss, ss - 7);
      assert Marked(ram, ss)[..db][ss - 7] == 0xA3 && ram[..db][ss - 7] == 0;
    }
  }

  // ---------------------------------------------------------------------------------------------
  // Interleavings
  // ---------------------------------------------------------------------------------------------

  datatype Op = DoAlloc(size: nat) | DoFree(addr: nat) | DoPush(value: int) | DoPop | DoReserve(count: nat)
                   | DoDrop(count: nat)

  function Apply(s: State, op: Op): (r: Result<State>)
    requires s.Valid()
    ensures r.Ok? ==> r.value.Valid()
  {
    match op
    case DoAlloc(n) => Ok(s.(heap := HeapLaws.Step(s.heap, HeapLaws.Request(n))))
    case DoFree(a) => Ok(s.(heap := HeapLaws.Step(s.heap, HeapLaws.Release(a))))
    case DoPush(v) => Push(s, v)
    case DoPop =>
      var p :- Pop(s);
      Ok(p.1)
    case DoReserve(n) => Reserve(s, n)
    case DoDrop(n) => DropWords(s, n)
  }

  /** The stack is above the boundary, the heap below it, and the heap is sound. */
  ghost predicate Disjoint(s: State, hb: nat) {
    && s.Valid() && H.Inv(s.heap, hb)
    && s.heap.lmt + WORD <= s.sb
    && s.sb < Reg(s, SP) <= |s.ram|
  }

  /** A machine that starts on a layout in order, with an empty stack and heap, has its regions apart. */
  lemma StartsDisjoint(s: State, l: Layout, records: nat, sth: nat)
    requires s.Valid() && Ordered(l) && 0 < sth && 0 < l.hb
    requires |s.ram| == l.size && s.sb == l.sb && Reg(s, SP) == l.size
    requires s.heap == H.Init(records, sth, WORD, l.hb, l.hlm)
    ensures Disjoint(s, l.hb)
  {
    hide Reg;
    HeapLaws.InitInv(records, sth, WORD, l.hb, l.hlm);
  }

  /** Everything below the stack boundary - data and heap - is unchanged. */
  ghost predicate SameBelow(s: State, t: State) {
    |t.ram| == |s.ram| && t.sb == s.sb && forall x :: 0 <= x < s.sb && x < |s.ram| ==> t.ram[x] == s.ram[x]
  }

  lemma PushNeedsRoom(s: State, v: int)
    requires s.Valid() && WORD <= s.sb < Reg(s, SP) <= |s.ram| && Push(s, v).Ok?
    ensures s.sb + 8 < Reg(s, SP)
  {
    hide Reg, Put, SetReg, Splice;
    assert (Reg(s, SP) - 8) % U64 == Reg(s, SP) - 8;
  }

  lemma BlocksBelow(h: H.Heap, hb: nat)
    requires H.Inv(h, hb)
    ensures forall b :: b in h.used || b in h.free ==> b.End() <= h.lmt
  {
    var o :| H.Tiling(o, h, hb);
    hide H.Sane, H.Chain;
    H.BoundedBy(h.used, multiset(h.free), o, hb, h.top);
    H.BoundedBy(h.free, multiset(h.used), o, hb, h.top);
  }

  /** A push changes the eight bytes under the old stack pointer, which are above every live block. */
  lemma PushClear(s: State, v: int, hb: nat)
    requires Disjoint(s, hb) && Push(s, v).Ok?
    ensures var t := Push(s, v).value;
      && Disjoint(t, hb) && Reg(t, SP) == Reg(s, SP) - 8 && t.ram == Splice(s.ram, Reg(s, SP) - 8, Put(v, 8))
      && SameBelow(s, t)
      && forall b :: b in s.heap.used || b in s.heap.free ==> b.End() <= s.heap.lmt < s.sb < Reg(t, SP)
  {
    hide H.Inv;
    PushNeedsRoom(s, v);
    PushFacts(s, v);
    BlocksBelow(s.heap, hb);
  }

  /**
   The reservation reaches below address 0, where the 64-bit stack pointer wraps around, and the address that
   is left of it in 32 bits is one of the RAM, so that the machine does not refuse it.
   */
  predicate Wild(s: State, n: nat)
    requires s.Valid()
  {
    var size := 8 * (n % 256);
    Reg(s, SP) < size && Reg(s, SP) + U32 - size <= |s.ram|
  }

  /** A stack pointer that is lowered below 0 wraps around. */
  lemma Lowered(q: int)
    requires -2048 < q < U32
    ensures q % U64 == (if q >= 0 then q else q + U64) && q % U64 % U32 == if q >= 0 then q else q + U32
  {
  }

  /** A reservation that goes through leaves the stack pointer above the boundary exactly when it is not wild. */
  lemma ReserveExact(s: State, n: nat)
    requires s.Valid() && s.sb < Reg(s, SP) <= |s.ram| && Reserve(s, n).Ok?
    ensures !Wild(s, n) <==> s.sb < Reg(Reserve(s, n).value, SP) <= |s.ram|
    ensures !Wild(s, n) ==> s.sb < Reg(s, SP) - 8 * (n % 256)
    ensures !Wild(s, n) ==> Reserve(s, n).value == SetReg(s, SP, Reg(s, SP) - 8 * (n % 256))
  {
    hide Reg, Put, SetReg, Splice;
    var q := Reg(s, SP) - 8 * (n % 256);
    Lowered(q);
    SetRegFacts(s, SP, q % U64);
  }

  lemma PopRange(s: State, n: nat)
    requires s.Valid() && Reg(s, SP) <= |s.ram| && Drop(s, n).Ok?
    ensures Reg(s, SP) + 8 * (n % 256) <= |s.ram|
    ensures Drop(s, n).value.1 == SetReg(s, SP, Reg(s, SP) + 8 * (n % 256))
  {
    hide Reg, Put, SetReg, Splice;
    assert (Reg(s, SP) + 8 * (n % 256)) % U64 == Reg(s, SP) + 8 * (n % 256);
  }

  lemma StackMove(s: State, op: Op, hb: nat)
    requires Disjoint(s, hb) && Apply(s, op).Ok? && (op.DoPop? || op.DoReserve? || op.DoDrop?)
    requires op.DoReserve? ==> !Wild(s, op.count)
    ensures var t := Apply(s, op).value; Disjoint(t, hb) && SameBelow(s, t) && t.ram == s.ram
  {
    hide H.Inv, Reg, Put, SetReg, Get, Splice;
    var sp := Reg(s, SP);
    match op {
      case DoPop =>
        PopRange(s, 1);
        SetRegFacts(s, SP, sp + 8);
      case DoDrop(n) =>
        PopRange(s, n);
        SetRegFacts(s, SP, sp + 8 * (n % 256));
      case DoReserve(n) =>
        ReserveExact(s, n);
        SetRegFacts(s, SP, sp - 8 * (n % 256));
    }
  }

  /** Only a RAM that ends in the last 2040 bytes below 4 GiB can see a wild reservation. */
  lemma PlainRamNeverWild(s: State, n: nat)
    requires s.Valid() && 0 < Reg(s, SP) && |s.ram| + 2040 <= U32
    ensures !Wild(s, n)
  {
  }

  /** With a stack pointer at 16 and 4 GiB less 24 bytes of RAM, 5 words wrap around to an address at its end. */
  lemma WildReservation(s: State)
    requires s.Valid() && s.sb == 8 && Reg(s, SP) == 16 && |s.ram| == U32 - 24
    ensures Wild(s, 5) && Reserve(s, 5).Ok? && Reg(Reserve(s, 5).value, SP) == U64 - 24
  {
    hide Reg, SetReg;
    assert (16 - 40) % U64 == U64 - 24 && (U64 - 24) % U32 == U32 - 24;
    SetRegFacts(s, SP, U64 - 24);
  }

  lemma HeapMove(s: State, op: Op, hb: nat)
    requires Disjoint(s, hb) && (op.DoFree? || (op.DoAlloc? && H.AllocSafe(s.heap, op.size)))
    ensures var t := Apply(s, op).value; Disjoint(t, hb) && SameBelow(s, t) && t.ram == s.ram
  {
    hide Reg, H.AllocSafe;
    match op {
      case DoAlloc(n) => H.AllocKeeps(s.heap, n, hb);
      case DoFree(a) => H.FreeKeeps(s.heap, a, hb);
    }
    hide H.Inv, H.Alloc, H.Free;
    RegsOnly(s, Apply(s, op).value);
  }

  /** A run of heap and stack operations, up to the first one the machine refuses. */
  function RunOps(s: State, ops: seq<Op>): (t: State)
    requires s.Valid()
    ensures t.Valid()
    decreases |ops|
  {
    if ops == [] || Apply(s, ops[0]).Bad? then s else RunOps(Apply(s, ops[0]).value, ops[1..])
  }

  /** Every allocation meets its guard, and no reservation is wild. */
  ghost predicate SafeOps(s: State, ops: seq<Op>)
    requires s.Valid()
    decreases |ops|
  {
    ops == [] || Apply(s, ops[0]).Bad? ||
    (&& (ops[0].DoAlloc? ==> H.AllocSafe(s.heap, ops[0].size)) && (ops[0].DoReserve? ==> !Wild(s, ops[0].count))
     && SafeOps(Apply(s, ops[0]).value, ops[1..]))
  }

  /** In any interleaving the stack stays above its boundary and nothing below it is ever written. */
  lemma {:induction false} StackNeverReachesHeap(s: State, ops: seq<Op>, hb: nat)
    requires s.Valid() && Disjoint(s, hb) && SafeOps(s, ops)
    ensures Disjoint(RunOps(s, ops), hb) && SameBelow(s, RunOps(s, ops))
    decreases |ops|
  {
    hide Disjoint, H.AllocSafe;
    if ops != [] && Apply(s, ops[0]).Ok? {
      if ops[0].DoPush? {
        PushClear(s, ops[0].value, hb);
      } else if ops[0].DoAlloc? || ops[0].DoFree? {
        HeapMove(s, ops[0], hb);
      } else {
        StackMove(s, ops[0], hb);
      }
      hide Apply;
      StackNeverReachesHeap(Apply(s, ops[0]).value, ops[1..], hb);
    }
  }
}
