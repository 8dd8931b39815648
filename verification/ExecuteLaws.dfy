/**
 What each instruction does, in terms of the bytes at its operands: which register, which bytes of the RAM or
 which part of the heap changes, and to what value.
 */
module ExecuteLaws {
  import opened Basics
  import opened Arithmetic
  import opened Bytes
  import opened Instructions
  import opened Machine
  import opened Calls
  import opened MachineLaws
  import H = HeapModel

  // ---------------------------------------------------------------------------------------------
  // Bytes at places
  // ---------------------------------------------------------------------------------------------

  /** There are `n` bytes at the place. */
  predicate Inside(s: State, p: Place, n: nat)
    requires s.Valid()
  {
    match p
    case InReg(r) => r < REGS && n <= 8
    case InRam(a) => 0 <= a && a + n <= |s.ram|
    case InImm(b) => n <= |b|
  }

  function BytesAt(s: State, p: Place, n: nat): seq<Byte>
    requires s.Valid() && Inside(s, p, n)
  {
    match p
    case InReg(r) => s.regs[8 * r..8 * r + n]
    case InRam(a) => s.ram[a..a + n]
    case InImm(b) => b[..n]
  }

  /** The signed number of the given size at the place. */
  function ValueAt(s: State, p: Place, mode: nat): int
    requires s.Valid() && mode < 4 && Inside(s, p, SizeOf(mode))
  {
    Get(BytesAt(s, p, SizeOf(mode)))
  }

  ghost predicate Replaced(s: seq<Byte>, t: seq<Byte>, at: nat, b: seq<Byte>) {
    && |t| == |s| && at + |b| <= |s| && t[at..at + |b|] == b
    && forall k :: 0 <= k < |s| && !(at <= k < at + |b|) ==> t[k] == s[k]
  }

  /** `t` is `s` with the bytes `b` at the place; what is written to the instruction itself is not seen again. */
  ghost predicate Written(s: State, t: State, p: Place, b: seq<Byte>)
    requires s.Valid() && Inside(s, p, |b|)
  {
    match p
    case InReg(r) => t == s.(regs := t.regs) && Replaced(s.regs, t.regs, 8 * r, b)
    case InRam(a) => t == s.(ram := t.ram) && Replaced(s.ram, t.ram, a, b)
    case InImm(_) => t == s
  }

  lemma ReadIs(s: State, p: Place, mode: nat)
    requires s.Valid() && mode < 4
    ensures Read(s, p, mode).Ok? <==> Inside(s, p, SizeOf(mode))
    ensures Inside(s, p, SizeOf(mode)) ==> Read(s, p, mode) == Ok(ValueAt(s, p, mode))
  {
    hide Get;
  }

  lemma WriteIs(s: State, p: Place, v: int, mode: nat)
    requires s.Valid() && mode < 4 && Inside(s, p, SizeOf(mode))
    ensures Write(s, p, v, mode).Ok? && Written(s, Write(s, p, v, mode).value, p, Put(v, SizeOf(mode)))
  {
    hide Put;
  }

  lemma SetRegIs(s: State, r: nat, v: int)
    requires s.Valid() && r < REGS
    ensures Written(s, SetReg(s, r, v), InReg(r), Put(v, 8))
  {
    hide Put;
  }

  /** Written bytes are read back as a number that differs from the written one by a multiple of 256^n. */
  lemma WrittenIsCongruent(s: State, t: State, p: Place, v: int, mode: nat)
    requires s.Valid() && t.Valid() && mode < 4 && !p.InImm? && Inside(s, p, SizeOf(mode))
    requires Written(s, t, p, Put(v, SizeOf(mode)))
    ensures Inside(t, p, SizeOf(mode)) && (ValueAt(t, p, mode) - v) % Pow256(SizeOf(mode)) == 0
    ensures Fits(v, SizeOf(mode)) ==> ValueAt(t, p, mode) == v
  {
    var n := SizeOf(mode);
    assert BytesAt(t, p, n) == Put(v, n);
    PutGet(Put(v, n));
    GetPut(v, n);
    var w := Get(Put(v, n));
    hide Put, Get, Fits, Pow256;
    var q := SameBytes(w, v, n);
    MulMod(q, Pow256(n));
  }

  // ---------------------------------------------------------------------------------------------
  // Bits
  // ---------------------------------------------------------------------------------------------

  /** Bit `k` of a number in two's complement. */
  function Bit(v: int, k: nat): (b: nat)
    ensures b < 2
    decreases k
  {
    if k == 0 then v % 2 else Bit(v / 2, k - 1)
  }

  lemma {:induction false} BitwiseBits(op: nat, a: int, b: int, n: nat, k: nat)
    requires k < n
    ensures Bit(Bitwise(op, a, b, n), k) == BitOf(op, Bit(a, k), Bit(b, k))
    decreases n
  {
    var low, high := BitOf(op, a % 2, b % 2), Bitwise(op, a / 2, b / 2, n - 1);
    var all := Bitwise(op, a, b, n);
    hide BitOf;
    assert all % 2 == low && all / 2 == high;
    if k > 0 {
      BitwiseBits(op, a / 2, b / 2, n - 1, k - 1);
    }
  }

  /** The complement has all bits the other way. */
  lemma {:induction false} ComplementBits(v: int, k: nat)
    ensures Bit(-v - 1, k) == 1 - Bit(v, k)
    decreases k
  {
    if k > 0 {
      assert (-v - 1) / 2 == -(v / 2) - 1;
      ComplementBits(v / 2, k - 1);
    }
  }

  // ---------------------------------------------------------------------------------------------
  // Two operands
  // ---------------------------------------------------------------------------------------------

  /** The operations that have a result: no division by zero or of the least number by -1, no shift out of range. */
  predicate Defined(op: nat, x: int, y: int) {
    && (op == DIV ==> y != 0 && !(x == LEAST && y == -1))
    && (op == SAR || op == SAL ==> 0 <= y < 64)
  }

  /** The same for the operations bit by bit. */
  ghost predicate BitsMean(op: nat, x: int, y: int, z: int) {
    && (op == XOR ==> forall k: nat :: k < 64 ==> Bit(z, k) == if Bit(x, k) != Bit(y, k) then 1 else 0)
    && (op == BOR ==> forall k: nat :: k < 64 ==> Bit(z, k) == if Bit(x, k) == 1 || Bit(y, k) == 1 then 1 else 0)
    && (op == BAND ==> forall k: nat :: k < 64 ==> Bit(z, k) == if Bit(x, k) == 1 && Bit(y, k) == 1 then 1 else 0)
  }

  /** What the result of an operation on two numbers is. */
  ghost predicate Means(op: nat, x: int, y: int, z: int) {
    && (op == MOV ==> z == y)
    && (op == ADD ==> z == x + y)
    && (op == SUB ==> z == x - y)
    && (op == MUL ==> z == x * y)
    && (op == DIV && y != 0 ==>
          Abs(x - y * z) < Abs(y) && (x >= 0 ==> x - y * z >= 0) && (x <= 0 ==> x - y * z <= 0))
    && (op == SAR && y >= 0 ==> z * Pow2(y) <= x < z * Pow2(y) + Pow2(y))
    && (op == SAL && y >= 0 ==> z == x * Pow2(y))
    && (op == AND ==> z == if x != 0 && y != 0 then 1 else 0)
    && (op == OR ==> z == if x != 0 || y != 0 then 1 else 0)
    && BitsMean(op, x, y, z)
  }

  predicate IsAlu(op: nat) {
    ADD <= op <= DIV
  }

  lemma OneBit(op: nat, p: nat, q: nat)
    requires p < 2 && q < 2 && (op == XOR || op == BOR || op == BAND)
    ensures BitOf(op, p, q) == if op == XOR then (if p != q then 1 else 0)
                               else if op == BOR then (if p == 1 || q == 1 then 1 else 0)
                               else if p == 1 && q == 1 then 1 else 0
  {
  }

  lemma BitsMeant(op: nat, x: int, y: int, z: int)
    requires op == XOR || op == BOR || op == BAND
    requires forall k: nat :: k < 64 ==> Bit(z, k) == BitOf(op, Bit(x, k), Bit(y, k))
    ensures BitsMean(op, x, y, z)
  {
    hide Bit, BitOf;
    if op == XOR {
      forall k: nat | k < 64 ensures Bit(z, k) == if Bit(x, k) != Bit(y, k) then 1 else 0 {
        OneBit(op, Bit(x, k), Bit(y, k));
      }
    } else if op == BOR {
      forall k: nat | k < 64 ensures Bit(z, k) == if Bit(x, k) == 1 || Bit(y, k) == 1 then 1 else 0 {
        OneBit(op, Bit(x, k), Bit(y, k));
      }
    } else {
      forall k: nat | k < 64 ensures Bit(z, k) == if Bit(x, k) == 1 && Bit(y, k) == 1 then 1 else 0 {
        OneBit(op, Bit(x, k), Bit(y, k));
      }
    }
  }

  lemma BitwiseMeans(op: nat, x: int, y: int)
    requires op == XOR || op == BOR || op == BAND
    ensures BitsMean(op, x, y, Bitwise(op, x, y, 64))
  {
    var z := Bitwise(op, x, y, 64);
    hide Bitwise, Bit, BitOf;
    forall k: nat | k < 64
      ensures Bit(z, k) == BitOf(op, Bit(x, k), Bit(y, k))
    {
      BitwiseBits(op, x, y, 64, k);
    }
    BitsMeant(op, x, y, z);
  }

  lemma FitsWider(v: int, mode: nat)
    requires mode < 4 && Fits(v, SizeOf(mode))
    ensures Fits(v, 8)
  {
    EightBytesRange();
    assert Pow256(1) == 0x100 && Pow256(3) == 0x100_0000 && Pow256(7) == 0x100_0000_0000_0000 && Pow256(0) == 1;
  }

  lemma NoBits(op: nat, x: int, y: int)
    requires op < XOR || op > BAND
    ensures forall z :: BitsMean(op, x, y, z)
  {
  }

  /** The arithmetic unit gives a result exactly when the operation is defined, and the right one. */
  lemma AluExact(op: nat, x: int, y: int)
    requires IsAlu(op) && Fits(x, 8) && Fits(y, 8)
    ensures if Defined(op, x, y) then Alu(op, x, y).Ok? && Means(op, x, y, Alu(op, x, y).value)
            else Alu(op, x, y) == Bad(Crashed)
  {
    hide BitsMean, Pow2, Bitwise, Fits;
    if op == DIV {
      DivisionTruncates(x, y);
    } else if (op == SAR || op == SAL) && 0 <= y < 64 {
      ShiftRoundsDown(x, y);
    } else if op == XOR || op == BOR || op == BAND {
      BitwiseMeans(op, x, y);
    }
    if op < XOR || op > BAND {
      NoBits(op, x, y);
    }
  }

  /** The size of the last operand. */
  function LastMode(i: Instruction): nat {
    if i.rmd then i.ims else i.imd
  }

  /** An instruction with two operands that are there: `p` is read and written, `q` is read. */
  ghost predicate TwoPlaces(i: Instruction, s: State, p: Place, q: Place)
    requires s.Valid()
  {
    && i.osz == 3 && i.ims < 4 && i.imd < 4 && PlaceA(s, i) == Ok(p) && PlaceB(s, i) == Ok(q)
    && Inside(s, p, SizeOf(i.imd)) && Inside(s, q, SizeOf(LastMode(i)))
  }

  lemma ExecuteTwo(i: Instruction, iip: nat, s: State, p: Place, q: Place)
    requires s.Valid() && TwoPlaces(i, s, p, q) && MOV <= i.opc <= ALLOC && i.opc != MOD
    ensures Execute(i, iip, s) == Execute2(i, LastMode(i), s)
    ensures Read(s, p, i.imd) == Ok(ValueAt(s, p, i.imd)) && Read(s, q, LastMode(i)) == Ok(ValueAt(s, q, LastMode(i)))
  {
    hide PlaceA, PlaceB, Execute2, Read, ValueAt, Inside;
    ReadIs(s, p, i.imd);
    ReadIs(s, q, LastMode(i));
  }

  lemma ValueFits(s: State, p: Place, mode: nat)
    requires s.Valid() && mode < 4 && Inside(s, p, SizeOf(mode))
    ensures Fits(ValueAt(s, p, mode), 8)
  {
    GetFits(BytesAt(s, p, SizeOf(mode)));
    FitsWider(ValueAt(s, p, mode), mode);
  }

  lemma MoveMeans(x: int, y: int)
    ensures Means(MOV, x, y, y) && Defined(MOV, x, y)
  {
  }

  /**
   The instructions with two operands that compute: the first operand becomes the number that the operation
   means, cut to its size, and nothing else changes. Undefined operations are a crash.
   */
  lemma BinaryExact(i: Instruction, iip: nat, s: State, p: Place, q: Place) returns (z: int)
    requires s.Valid() && TwoPlaces(i, s, p, q) && (i.opc == MOV || IsAlu(i.opc))
    ensures var x, y, r := ValueAt(s, p, i.imd), ValueAt(s, q, LastMode(i)), Execute(i, iip, s);
            if Defined(i.opc, x, y) then
              r.Ok? && Means(i.opc, x, y, z) && Written(s, r.value, p, Put(z, SizeOf(i.imd)))
            else r == Bad(Crashed)
  {
    var x, y := ValueAt(s, p, i.imd), ValueAt(s, q, LastMode(i));
    ExecuteTwo(i, iip, s, p, q);
    ValueFits(s, p, i.imd);
    ValueFits(s, q, LastMode(i));
    hide Execute, PlaceA, PlaceB, Read, Write, ValueAt, Inside, Means, Written, Put, Fits, Alu, Defined;
    z := y;
    if i.opc == MOV {
      MoveMeans(x, y);
    } else {
      AluExact(i.opc, x, y);
      if Defined(i.opc, x, y) {
        z := Alu(i.opc, x, y).value;
      }
    }
    WriteIs(s, p, z, i.imd);
  }

  /** The comparison leaves one of three flags, and nothing else changes. */
  lemma CompareExact(i: Instruction, iip: nat, s: State, p: Place, q: Place)
    requires s.Valid() && TwoPlaces(i, s, p, q) && i.opc == CMP
    ensures var x, y, r := ValueAt(s, p, i.imd), ValueAt(s, q, LastMode(i)), Execute(i, iip, s);
            r.Ok? && Written(s, r.value, InReg(FLG), Put(if x == y then 0x80 else if x < y then 0x40 else 0x20, 8))
  {
    var x, y := ValueAt(s, p, i.imd), ValueAt(s, q, LastMode(i));
    ExecuteTwo(i, iip, s, p, q);
    SetRegIs(s, FLG, Compare(x, y));
    hide Execute, PlaceA, PlaceB, Read, Write, ValueAt, Inside, Written, Put, SetReg;
  }

  lemma OtherHeap(s: State, h: H.Heap, p: Place, n: nat)
    requires s.Valid() && h.aln > 0
    ensures Inside(s.(heap := h), p, n) == Inside(s, p, n)
  {
  }

  /** The allocation puts the address of the granted block into the first operand, or 0. */
  lemma AllocExact(i: Instruction, iip: nat, s: State, p: Place, q: Place)
    requires s.Valid() && TwoPlaces(i, s, p, q) && i.opc == ALLOC
    ensures var y, r := ValueAt(s, q, LastMode(i)), Execute(i, iip, s);
            r.Ok? &&
            match H.Alloc(s.heap, y % U32)
            case Granted(h, b) => h.aln > 0 && Written(s.(heap := h), r.value, p, Put(b.addr, SizeOf(i.imd)))
            case Refused => Written(s, r.value, p, Put(0, SizeOf(i.imd)))
  {
    var y := ValueAt(s, q, LastMode(i));
    ExecuteTwo(i, iip, s, p, q);
    hide Execute, PlaceA, PlaceB, Read, Write, ValueAt, Written, Put, H.Alloc;
    match H.Alloc(s.heap, y % U32) {
      case Granted(h, b) =>
        OtherHeap(s, h, p, SizeOf(i.imd));
        WriteIs(s.(heap := h), p, b.addr, i.imd);
      case Refused =>
        WriteIs(s, p, 0, i.imd);
    }
  }

  // ---------------------------------------------------------------------------------------------
  // One operand
  // ---------------------------------------------------------------------------------------------

  /** An instruction with one operand that is there, in the sizes that it is read and written with. */
  ghost predicate OnePlace(i: Instruction, s: State, p: Place)
    requires s.Valid()
  {
    && i.osz == 2 && i.ims < 4 && i.imd < 4 && PlaceA(s, i) == Ok(p)
    && Inside(s, p, SizeOf(i.imd)) && Inside(s, p, SizeOf(LastMode(i)))
  }

  lemma ExecuteOne(i: Instruction, iip: nat, s: State, p: Place)
    requires s.Valid() && OnePlace(i, s, p) && DBG < i.opc < MOV
    requires !(PUTI <= i.opc <= PUTC || NCALL <= i.opc <= RMEM) && i.opc != MCPY
    ensures Execute(i, iip, s) == Execute1(i, iip, p, LastMode(i), s)
    ensures Read(s, p, LastMode(i)) == Ok(ValueAt(s, p, LastMode(i)))
    ensures Inside(s, p, SizeOf(i.imd)) && Inside(s, p, SizeOf(LastMode(i)))
  {
    hide PlaceA, PlaceB, Execute1, Read, ValueAt, Inside;
    ReadIs(s, p, LastMode(i));
  }

  /** What the machine calls for the operations on the value `v` of an operand. */
  lemma Calls1(i: Instruction, iip: nat, s: State, p: Place, tb: nat, v: int)
    requires s.Valid() && i.imd < 4 && tb < 4 && Read(s, p, tb) == Ok(v)
    ensures i.opc == NOT ==> Execute1(i, iip, p, tb, s) == Write(s, p, if v == 0 then 1 else 0, i.imd)
    ensures i.opc == BNOT ==> Execute1(i, iip, p, tb, s) == Write(s, p, -v - 1, i.imd)
    ensures i.opc == INC ==> Execute1(i, iip, p, tb, s) == Write(s, p, v + 1, i.imd)
    ensures i.opc == DEC ==> Execute1(i, iip, p, tb, s) == Write(s, p, v - 1, i.imd)
    ensures i.opc == PUSH ==> Execute1(i, iip, p, tb, s) == Push(s, v)
    ensures i.opc == POPN ==> Execute1(i, iip, p, tb, s) == DropWords(s, v % 256)
    ensures i.opc == RET ==> Execute1(i, iip, p, tb, s) == Return(s, v % U32)
    ensures i.opc == DLLOC ==> Execute1(i, iip, p, tb, s) == Ok(s.(heap := H.Free(s.heap, v % U32).0))
    ensures JMP <= i.opc <= JMPS ==>
              Execute1(i, iip, p, tb, s) == Ok(if Taken(i.opc, Reg(s, FLG)) then SetReg(s, IP, (iip + v) % U64) else s)
  {
    hide Read, Write, Push, Pop, DropWords, H.Free, Taken, SetReg, Reg, EnterCall, Return;
  }

  /** The result of an operation on one number. */
  function Unary(op: nat, v: int): int {
    if op == NOT then (if v == 0 then 1 else 0) else if op == BNOT then -v - 1 else if op == INC then v + 1 else v - 1
  }

  lemma UnaryCalls(i: Instruction, iip: nat, s: State, p: Place, tb: nat, v: int)
    requires s.Valid() && i.imd < 4 && tb < 4 && Read(s, p, tb) == Ok(v)
    requires i.opc == NOT || i.opc == BNOT || i.opc == INC || i.opc == DEC
    ensures Execute1(i, iip, p, tb, s) == Write(s, p, Unary(i.opc, v), i.imd)
  {
    hide Read, Write, Execute1;
    Calls1(i, iip, s, p, tb, v);
  }

  /** The operand becomes the negation, the complement, the number above or the number below. */
  lemma UnaryExact(i: Instruction, iip: nat, s: State, p: Place)
    requires s.Valid() && OnePlace(i, s, p) && (i.opc == NOT || i.opc == BNOT || i.opc == INC || i.opc == DEC)
    ensures var v, r := ValueAt(s, p, LastMode(i)), Execute(i, iip, s);
            var z := if i.opc == NOT then (if v == 0 then 1 else 0) else if i.opc == BNOT then -v - 1
                     else if i.opc == INC then v + 1 else v - 1;
            r.Ok? && Written(s, r.value, p, Put(z, SizeOf(i.imd)))
  {
    assert Unary(i.opc, ValueAt(s, p, LastMode(i))) ==
        var v := ValueAt(s, p, LastMode(i));
        if i.opc == NOT then (if v == 0 then 1 else 0) else if i.opc == BNOT then -v - 1
        else if i.opc == INC then v + 1 else v - 1;
    hide *;
    ExecuteOne(i, iip, s, p);
    UnaryCalls(i, iip, s, p, LastMode(i), ValueAt(s, p, LastMode(i)));
    WriteIs(s, p, Unary(i.opc, ValueAt(s, p, LastMode(i))), i.imd);
  }

  /** The pushed word stands below the old top of the stack, and the stack pointer is there. */
  lemma PushExact(i: Instruction, iip: nat, s: State, p: Place)
    requires s.Valid() && OnePlace(i, s, p) && i.opc == PUSH && s.sb + 8 < Reg(s, SP) <= |s.ram|
    ensures var v, sp, r := ValueAt(s, p, LastMode(i)), Reg(s, SP), Execute(i, iip, s);
            && r.Ok? && s.Leads(r.value) && Reg(r.value, SP) == sp - 8 && SameRegsBut(s, r.value, SP, SP)
            && Replaced(s.ram, r.value.ram, sp - 8, Put(v, 8))
  {
    var v := ValueAt(s, p, LastMode(i));
    ExecuteOne(i, iip, s, p);
    hide Execute, PlaceA, PlaceB, Read, ValueAt, Inside, OnePlace, Execute1, LastMode, Put, Push, Reg, SameRegsBut;
    Calls1(i, iip, s, p, LastMode(i), v);
    PushFacts(s, v);
  }

  lemma PopCalls(i: Instruction, iip: nat, s: State, p: Place, tb: nat)
    requires s.Valid() && i.imd < 4 && tb < 4 && i.opc == POP && Reg(s, SP) + 8 <= |s.ram|
    ensures Execute1(i, iip, p, tb, s) == Write(SetReg(s, SP, Reg(s, SP) + 8), p, Word(s, Reg(s, SP)), tb)
  {
    hide Read, Write, Push, Pop, DropWords, H.Free, Taken, SetReg, Reg, EnterCall, Return, Word;
    PopFacts(s);
  }

  lemma InsideStays(s: State, t: State, p: Place, n: nat)
    requires s.Valid() && t.Valid() && |s.ram| == |t.ram|
    ensures Inside(s, p, n) == Inside(t, p, n)
  {
  }

  lemma LowBytes(s: State, a: nat, n: nat)
    requires n <= 8 && a + 8 <= |s.ram|
    ensures Put(Word(s, a), n) == s.ram[a..a + n]
  {
    hide Put, Get;
    var b := s.ram[a..a + 8];
    PutGet(b);
    PutPrefix(Word(s, a), n, 8);
    assert b[..n] == s.ram[a..a + n];
  }

  /** The operand becomes the low bytes of the word on top of the stack, which is taken off before. */
  lemma PopExact(i: Instruction, iip: nat, s: State, p: Place) returns (u: State)
    requires s.Valid() && OnePlace(i, s, p) && i.opc == POP && Reg(s, SP) + 8 <= |s.ram|
    ensures u.Valid() && Written(s, u, InReg(SP), Put(Reg(s, SP) + 8, 8)) && Inside(u, p, SizeOf(LastMode(i)))
    ensures var sp, r := Reg(s, SP), Execute(i, iip, s);
            r.Ok? && Written(u, r.value, p, s.ram[sp..sp + SizeOf(LastMode(i))])
  {
    hide Execute, PlaceA, PlaceB, Execute1, Read, Write, ValueAt, Put, Get, Reg, SetReg, Inside, Written;
    hide Word;
    var sp, tb := Reg(s, SP), LastMode(i);
    var n := SizeOf(tb);
    ExecuteOne(i, iip, s, p);
    u := SetReg(s, SP, sp + 8);
    PopCalls(i, iip, s, p, tb);
    SetRegIs(s, SP, sp + 8);
    InsideStays(s, u, p, n);
    WriteIs(u, p, Word(s, sp), tb);
    LowBytes(s, sp, n);
  }

  lemma DropWordsIs(s: State, c: nat)
    requires s.Valid() && c < 256 && Reg(s, SP) + 8 * c <= |s.ram|
    ensures DropWords(s, c) == Ok(SetReg(s, SP, Reg(s, SP) + 8 * c))
  {
    hide Reg, SetReg, Drop;
    DropFacts(s, c);
  }

  /** Some words are taken off the stack, and nothing else changes. */
  lemma PopnExact(i: Instruction, iip: nat, s: State, p: Place)
    requires s.Valid() && OnePlace(i, s, p) && i.opc == POPN
    requires Reg(s, SP) + 8 * (ValueAt(s, p, LastMode(i)) % 256) <= |s.ram|
    ensures var r := Execute(i, iip, s);
            r.Ok? && Written(s, r.value, InReg(SP), Put(Reg(s, SP) + 8 * (ValueAt(s, p, LastMode(i)) % 256), 8))
  {
    hide Execute, PlaceA, PlaceB, Execute1, Read, ValueAt, Put, Reg, SetReg, Inside, Written, DropWords;
    hide SameRegsBut;
    var v := ValueAt(s, p, LastMode(i));
    ExecuteOne(i, iip, s, p);
    Calls1(i, iip, s, p, LastMode(i), v);
    DropWordsIs(s, v % 256);
    SetRegIs(s, SP, Reg(s, SP) + 8 * (v % 256));
  }

  /** The block at the address is freed, and nothing but the heap changes. */
  lemma DllocExact(i: Instruction, iip: nat, s: State, p: Place)
    requires s.Valid() && OnePlace(i, s, p) && i.opc == DLLOC
    ensures Execute(i, iip, s) == Ok(s.(heap := H.Free(s.heap, ValueAt(s, p, LastMode(i)) % U32).0))
  {
    ExecuteOne(i, iip, s, p);
    hide Execute, OnePlace, PlaceA, PlaceB, Execute1, Read, ValueAt, Inside, H.Free;
    Calls1(i, iip, s, p, LastMode(i), ValueAt(s, p, LastMode(i)));
  }

  /** Whether a jump is taken, by the bits of the flags. */
  predicate Jumps(op: nat, flg: nat) {
    || op == JMP
    || (op == JMPZ && Bit(flg, 7) == 1) || (op == JMPNZ && Bit(flg, 7) == 0)
    || (op == JMPS && Bit(flg, 6) == 1) || (op == JMPG && Bit(flg, 5) == 1)
  }

  lemma TakenIs(op: nat, flg: nat)
    requires JMP <= op <= JMPS
    ensures Taken(op, flg) <==> Jumps(op, flg)
  {
    assert Bit(flg, 5) == flg / 32 % 2;
    assert Bit(flg, 6) == flg / 64 % 2;
    assert Bit(flg, 7) == flg / 128 % 2;
  }

  /** A jump that is taken moves the instruction pointer by its operand, and nothing else changes. */
  lemma JumpExact(i: Instruction, iip: nat, s: State, p: Place)
    requires s.Valid() && OnePlace(i, s, p) && JMP <= i.opc <= JMPS
    ensures var v, r := ValueAt(s, p, LastMode(i)), Execute(i, iip, s);
            r.Ok? && if Jumps(i.opc, Reg(s, FLG)) then Written(s, r.value, InReg(IP), Put((iip + v) % U64, 8))
                     else r.value == s
  {
    hide Execute, PlaceA, PlaceB, Execute1, Read, ValueAt, Inside, Put, Reg, SetReg, Written, Taken, Jumps;
    var v := ValueAt(s, p, LastMode(i));
    ExecuteOne(i, iip, s, p);
    Calls1(i, iip, s, p, LastMode(i), v);
    TakenIs(i.opc, Reg(s, FLG));
    SetRegIs(s, IP, (iip + v) % U64);
  }

  /** A return takes the number of its results, as 32 bits, from its operand. */
  lemma RetExact(i: Instruction, iip: nat, s: State, p: Place, n: nat)
    requires s.Valid() && OnePlace(i, s, p) && i.opc == RET && CanReturn(s, ValueAt(s, p, LastMode(i)) % U32, n)
    ensures var r, bp, sp, k := Execute(i, iip, s), Reg(s, BP), Reg(s, SP), ValueAt(s, p, LastMode(i)) % U32;
      var to := bp + 24 + 8 * n - 8 * k;
      && r.Ok? && |r.value.ram| == |s.ram|
      && Reg(r.value, BP) == WordU(s, bp) && Reg(r.value, IP) == WordU(s, bp + 8) && Reg(r.value, SP) == to - 8
      && Word(r.value, to - 8) == k && r.value.ram[to..to + 8 * k] == s.ram[sp..sp + 8 * k]
  {
    hide Execute, PlaceA, PlaceB, Execute1, Read, ValueAt, Inside, Put, Get, GetU, Reg, Return;
    var v := ValueAt(s, p, LastMode(i));
    ExecuteOne(i, iip, s, p);
    Calls1(i, iip, s, p, LastMode(i), v);
    ReturnRestores(s, v % U32, n);
  }

  /** A call makes its frame, and then moves the instruction pointer by its operand. */
  lemma CallExact(i: Instruction, iip: nat, s: State, p: Place) returns (u: State)
    requires s.Valid() && OnePlace(i, s, p) && i.opc == CALL && s.sb + 16 < Reg(s, SP) <= |s.ram|
    ensures EnterCall(s) == Ok(u) && u.Valid() && Inside(u, p, SizeOf(LastMode(i)))
    ensures var r := Execute(i, iip, s);
            r.Ok? && Written(u, r.value, InReg(IP), Put((iip + ValueAt(u, p, LastMode(i))) % U64, 8))
  {
    hide Execute, PlaceA, PlaceB, Read, Write, ValueAt, Inside, Put, EnterCall, Return, Pop, Push, DropWords, Reg;
    hide SetReg, Written, WordU, SameFrom;
    ExecuteOne(i, iip, s, p);
    EnterCallFrame(s);
    u := EnterCall(s).value;
    InsideStays(s, u, p, SizeOf(LastMode(i)));
    ReadIs(u, p, LastMode(i));
    SetRegIs(u, IP, (iip + ValueAt(u, p, LastMode(i))) % U64);
  }

  /** Without an operand the machine stops or does nothing. */
  lemma PlainExact(i: Instruction, iip: nat, s: State)
    requires s.Valid() && i.osz == 1 && i.ims < 4 && i.imd < 4
    ensures i.opc == HALT ==> Execute(i, iip, s) == Ok(s.(halted := true))
    ensures i.opc == DBG ==> Execute(i, iip, s) == Ok(s)
  {
  }

  /** A size field of 0 runs no instruction. */
  lemma NoSize(i: Instruction, iip: nat, s: State)
    requires s.Valid() && i.ims < 4 && i.imd < 4 && (i.osz == 0 || i.osz > 3)
    ensures Execute(i, iip, s) == Bad(Crashed)
  {
  }

  // ---------------------------------------------------------------------------------------------
  // Room on the stack
  // ---------------------------------------------------------------------------------------------

  /** On a stack in its place a push aborts exactly when it would not stay above the boundary. */
  lemma PushRefused(s: State, v: int)
    requires s.Valid() && 8 <= Reg(s, SP) <= |s.ram|
    ensures Push(s, v) == Bad(Aborted) <==> Reg(s, SP) - 8 <= s.sb
    ensures Push(s, v).Bad? ==> Push(s, v) == Bad(Aborted)
  {
    hide Put, Reg, SetReg, GetU, Splice;
    var sp := Reg(s, SP);
    assert (sp - 8) % U64 == sp - 8 && (sp - 8) % U32 == sp - 8;
    if s.sb < sp - 8 {
      PushFacts(s, v);
    }
  }

  /** A pop aborts exactly when the word is not inside the RAM. */
  lemma PopRefused(s: State)
    requires s.Valid() && Reg(s, SP) <= |s.ram|
    ensures Pop(s) == Bad(Aborted) <==> |s.ram| < Reg(s, SP) + 8
    ensures Pop(s).Bad? ==> Pop(s) == Bad(Aborted)
  {
    hide Put, Reg, SetReg, GetU, Get, Splice;
    var sp := Reg(s, SP);
    assert (sp + 8) % U64 == sp + 8 && sp % U32 == sp;
    if sp + 8 <= |s.ram| {
      PopFacts(s);
    }
  }
}
