/**
 The running machine: registers and RAM as bytes, the stack, the heap, and what VM_execute does
 with one decoded instruction. Native calls and console output are outside the model.
 */
module Machine {
  import opened Basics
  import opened Bytes
  import opened Instructions
  import H = HeapModel

  const SP: nat := 6
  const IP: nat := 7
  const BP: nat := 8
  const FLG: nat := 9
  const REGS: nat := 10

  /** `sb` is the stack boundary; the RAM size is |ram|. */
  datatype State = State(regs: seq<Byte>, ram: seq<Byte>, sb: nat, heap: H.Heap, halted: bool) {
    ghost predicate Valid() {
      |regs| == 8 * REGS && |ram| < U32 && heap.aln > 0
    }

    /** `t` is a valid state that differs from this one in registers and RAM contents only. */
    ghost predicate Leads(t: State) {
      t.Valid() && t.sb == sb && t.heap == heap && t.halted == halted && |t.ram| == |ram|
    }
  }

  /** Aborted: the machine reports an error. Crashed: the host program has undefined behaviour. */
  datatype Fault = Aborted | Crashed | NotModelled

  datatype Result<+T> = Ok(value: T) | Bad(fault: Fault) {
    predicate IsFailure() {
      Bad?
    }

    function PropagateFailure<U>(): Result<U>
      requires Bad?
    {
      Bad(fault)
    }

    function Extract(): T
      requires Ok?
    {
      value
    }
  }

  function Splice(s: seq<Byte>, at: nat, b: seq<Byte>): (t: seq<Byte>)
    requires at + |b| <= |s|
    ensures |t| == |s| && t[at..at + |b|] == b
    ensures forall k :: 0 <= k < |s| && !(at <= k < at + |b|) ==> t[k] == s[k]
  {
    s[..at] + b + s[at + |b|..]
  }

  /** A register as an unsigned 64-bit number. */
  function Reg(s: State, r: nat): nat
    requires s.Valid() && r < REGS
  {
    GetU(s.regs[8 * r..8 * r + 8])
  }

  function SetReg(s: State, r: nat, v: int): (t: State)
    requires s.Valid() && r < REGS
    ensures t.Valid() && t == s.(regs := t.regs)
  {
    s.(regs := Splice(s.regs, 8 * r, Put(v, 8)))
  }

  // ---------------------------------------------------------------------------------------------
  // Operands
  // ---------------------------------------------------------------------------------------------

  /** Where an operand is: register bytes, RAM bytes, or the instruction itself. */
  datatype Place = InReg(r: nat) | InRam(addr: int) | InImm(bytes: seq<Byte>)

  /** MEM: addresses are cut to 32 bits and checked against the RAM size. */
  function Mem(s: State, addr: int): Result<int>
    requires s.Valid()
  {
    if addr % U32 > |s.ram| then Bad(Aborted) else Ok(addr % U32)
  }

  function Read(s: State, p: Place, mode: nat): Result<int>
    requires s.Valid() && mode < 4
  {
    var n := SizeOf(mode);
    match p
    case InReg(r) => if r < REGS then Ok(Get(s.regs[8 * r..8 * r + n])) else Bad(Crashed)
    case InRam(a) => if 0 <= a && a + n <= |s.ram| then Ok(Get(s.ram[a..a + n])) else Bad(Crashed)
    case InImm(b) => if n <= |b| then Ok(Get(b[..n])) else Bad(Crashed)
  }

  function Write(s: State, p: Place, v: int, mode: nat): (r: Result<State>)
    requires s.Valid() && mode < 4
    ensures r.Ok? ==> s.Leads(r.value)
  {
    var n := SizeOf(mode);
    match p
    case InReg(r) => if r < REGS then Ok(s.(regs := Splice(s.regs, 8 * r, Put(v, n)))) else Bad(Crashed)
    case InRam(a) => if 0 <= a && a + n <= |s.ram| then Ok(s.(ram := Splice(s.ram, a, Put(v, n)))) else Bad(Crashed)
    case InImm(_) => Ok(s)
  }

  function RegPlace(s: State, r: nat, mem: bool): Result<Place>
    requires s.Valid()
  {
    if r >= REGS then Bad(Crashed)
    else if mem then
      var a :- Mem(s, Reg(s, r));
      Ok(InRam(a))
    else Ok(InReg(r))
  }

  function ImmPlace(s: State, ii: int, mem: bool): Result<Place>
    requires s.Valid()
  {
    if mem then
      var a :- Mem(s, ii);
      Ok(InRam(a))
    else Ok(InImm(Put(ii, 8)))
  }

  function PlaceA(s: State, i: Instruction): Result<Place>
    requires s.Valid()
  {
    if i.osz == 2 && i.rmd then ImmPlace(s, i.ii, i.iam)
    else if 2 <= i.osz <= 3 then RegPlace(s, i.ra, i.iam)
    else Bad(Crashed)
  }

  function PlaceB(s: State, i: Instruction): Result<Place>
    requires s.Valid()
  {
    if i.osz != 3 then Bad(Crashed)
    else if i.rmd then ImmPlace(s, i.ii, i.ibm)
    else
      var p :- RegPlace(s, i.rb, i.ibm);
      Ok(if i.ibm && i.iea then InRam(p.addr + i.ii) else p)
  }

  // ---------------------------------------------------------------------------------------------
  // The stack
  // ---------------------------------------------------------------------------------------------

  /** VM_pushn without data: reserves `count` words; the 64-bit difference may wrap around. */
  function Reserve(s: State, count: nat): (r: Result<State>)
    requires s.Valid()
    ensures r.Ok? ==> s.Leads(r.value)
  {
    var sp := (Reg(s, SP) - 8 * (count % 256)) % U64;
    if sp <= s.sb then
      Bad(Aborted)
    else
      var _ :- Mem(s, sp);
      Ok(SetReg(s, SP, sp))
  }

  function Push(s: State, v: int): (r: Result<State>)
    requires s.Valid()
    ensures r.Ok? ==> s.Leads(r.value)
  {
    var t :- Reserve(s, 1);
    var a :- Mem(t, Reg(t, SP));
    Write(t, InRam(a), v, 3)
  }

  /** VM_popn: the address of the popped words, and the state without them. */
  function Drop(s: State, count: nat): (r: Result<(int, State)>)
    requires s.Valid()
    ensures r.Ok? ==> s.Leads(r.value.1)
  {
    var sp := Reg(s, SP);
    var size := 8 * (count % 256);
    if (sp + size) % U64 > |s.ram| then
      Bad(Aborted)
    else
      var a :- Mem(s, sp);
      Ok((a, SetReg(s, SP, (sp + size) % U64)))
  }

  function Pop(s: State): (r: Result<(int, State)>)
    requires s.Valid()
    ensures r.Ok? ==> s.Leads(r.value.1)
  {
    var d :- Drop(s, 1);
    var v :- Read(s, InRam(d.0), 3);
    Ok((v, d.1))
  }

  /** memcpy between RAM ranges; overlapping ranges are undefined. */
  function CopyWithin(s: State, from: int, to: int, n: nat): (r: Result<State>)
    requires s.Valid()
    ensures r.Ok? ==> s.Leads(r.value)
  {
    if 0 <= from && from + n <= |s.ram| && 0 <= to && to + n <= |s.ram| && (from + n <= to || to + n <= from) then
      Ok(s.(ram := Splice(s.ram, to, s.ram[from..from + n])))
    else
      Bad(Crashed)
  }

  /** VM_pushn with data: copies `count` words from RAM address `from`; the ranges must not overlap. */
  function PushCopy(s: State, from: int, count: nat): (r: Result<State>)
    requires s.Valid()
    ensures r.Ok? ==> s.Leads(r.value)
  {
    var t :- Reserve(s, count);
    var a :- Mem(t, Reg(t, SP));
    CopyWithin(t, from, a, 8 * (count % 256))
  }

  // ---------------------------------------------------------------------------------------------
  // Arithmetic
  // ---------------------------------------------------------------------------------------------

  const HALT: nat := 0
  const DBG: nat := 1
  const RET: nat := 2
  const JMP: nat := 3
  const JMPZ: nat := 4
  const JMPNZ: nat := 5
  const JMPG: nat := 6
  const JMPS: nat := 7
  const NOT: nat := 8
  const BNOT: nat := 9
  const INC: nat := 10
  const DEC: nat := 11
  const CALL: nat := 12
  const PUSH: nat := 13
  const POP: nat := 14
  const POPN: nat := 15
  const PUTI: nat := 16
  const PUTC: nat := 18
  const MCPY: nat := 19
  const DLLOC: nat := 20
  const NCALL: nat := 21
  const ALLOCA: nat := 22
  const RMEM: nat := 23
  const MOV: nat := 24
  const ADD: nat := 25
  const SUB: nat := 26
  const AND: nat := 27
  const OR: nat := 28
  const SAR: nat := 29
  const SAL: nat := 30
  const XOR: nat := 31
  const BOR: nat := 32
  const BAND: nat := 33
  const MUL: nat := 34
  const DIV: nat := 35
  const MOD: nat := 36
  const CMP: nat := 37
  const ALLOC: nat := 38

  /** The least signed number of 64 bits. */
  const LEAST: int := -0x8000_0000_0000_0000

  function Abs(a: int): nat {
    if a < 0 then -a else a
  }

  /** One bit of a bitwise operation. */
  function BitOf(op: nat, p: nat, q: nat): (r: nat)
    requires p < 2 && q < 2
    ensures r < 2
  {
    if op == XOR then (p + q) % 2 else if op == BOR then (if p + q > 0 then 1 else 0) else p * q
  }

  /** The lowest `n` bits of a bitwise operation on numbers in two's complement. */
  function Bitwise(op: nat, a: int, b: int, n: nat): nat
    decreases n
  {
    if n == 0 then 0 else BitOf(op, a % 2, b % 2) + 2 * Bitwise(op, a / 2, b / 2, n - 1)
  }

  /**
   The result of a binary operation, which the write cuts to its size: sums, products and left shifts wrap around.
   A shift out of range, a division by zero and a quotient of more than 64 bits are Crashed.
   */
  function Alu(op: nat, a: int, b: int): Result<int> {
    if op == ADD then Ok(a + b)
    else if op == SUB then Ok(a - b)
    else if op == AND then Ok(if a != 0 && b != 0 then 1 else 0)
    else if op == OR then Ok(if a != 0 || b != 0 then 1 else 0)
    else if op == SAR then if 0 <= b < 64 then Ok(a / Pow2(b)) else Bad(Crashed)
    else if op == SAL then if 0 <= b < 64 then Ok(a * Pow2(b)) else Bad(Crashed)
    else if op == XOR || op == BOR || op == BAND then Ok(Bitwise(op, a, b, 64))
    else if op == MUL then Ok(a * b)
    else if op == DIV then
      if b == 0 || (a == LEAST && b == -1) then Bad(Crashed)
      else Ok(if (a < 0) == (b < 0) then Abs(a) / Abs(b) else -(Abs(a) / Abs(b)))
    else Bad(Aborted)
  }

  /** The flag bits of `cmp`. */
  function Compare(a: int, b: int): nat {
    if a == b then 128 else if a < b then 64 else 32
  }

  predicate Taken(op: nat, flg: nat) {
    if op == JMP then true
    else if op == JMPZ then flg / 128 % 2 == 1
    else if op == JMPNZ then flg / 128 % 2 == 0
    else if op == JMPG then flg / 32 % 2 == 1
    else flg / 64 % 2 == 1
  }

  // ---------------------------------------------------------------------------------------------
  // One instruction
  // ---------------------------------------------------------------------------------------------

  /** Call, up to the jump: the return address and the caller's frame go on the stack. */
  function EnterCall(s: State): (r: Result<State>)
    requires s.Valid()
    ensures r.Ok? ==> s.Leads(r.value)
  {
    var t :- Push(s, Reg(s, IP));
    var u :- Push(t, Reg(t, BP));
    Ok(SetReg(u, BP, Reg(u, SP)))
  }

  /** Takes the frame off: restores bp and ip, and pops the argument count. */
  function PopFrame(s: State): (r: Result<(int, State)>)
    requires s.Valid()
    ensures r.Ok? ==> s.Leads(r.value.1)
  {
    var s1 := SetReg(s, SP, Reg(s, BP));
    var bp :- Pop(s1);
    var s2 := SetReg(bp.1, BP, bp.0);
    var ip :- Pop(s2);
    Pop(SetReg(ip.1, IP, ip.0))
  }

  function DropArguments(s: State, nargs: nat): (r: Result<State>)
    requires s.Valid()
    ensures r.Ok? ==> s.Leads(r.value)
  {
    if nargs > 0 then
      var d :- Drop(s, nargs);
      Ok(d.1)
    else Ok(s)
  }

  /** `ret k` for the word count `k`. */
  function Return(s: State, nret: nat): (r: Result<State>)
    requires s.Valid()
    ensures r.Ok? ==> s.Leads(r.value)
  {
    var d :- if nret > 0 then Drop(s, nret) else Ok((0, s));
    var f :- PopFrame(d.1);
    var s4 :- DropArguments(f.1, f.0 % U32);
    var s5 :- if nret > 0 then PushCopy(s4, d.0, nret) else Ok(s4);
    Push(s5, nret)
  }

  /** The mode of the last operand. */
  function ModeB(i: Instruction): nat {
    if i.osz >= 2 && !i.rmd then i.imd else i.ims
  }

  /** The operands are looked up before the operation; a size field of zero is unreachable code. */
  function Places(s: State, i: Instruction): Result<()>
    requires s.Valid()
  {
    if i.osz == 0 || i.osz > 3 then Bad(Crashed)
    else if i.osz == 1 then Ok(())
    else
      var _ :- PlaceA(s, i);
      if i.osz == 2 then Ok(())
      else
        var _ :- PlaceB(s, i);
        Ok(())
  }

  function DropWords(s: State, count: nat): (r: Result<State>)
    requires s.Valid()
    ensures r.Ok? ==> s.Leads(r.value)
  {
    var d :- Drop(s, count);
    Ok(d.1)
  }

  /** The instructions with one operand, at `a`. */
  function Execute1(i: Instruction, iip: nat, a: Place, tb: nat, s: State): (r: Result<State>)
    requires s.Valid() && i.imd < 4 && tb < 4
    ensures r.Ok? ==> r.value.Valid()
  {
    var op := i.opc;
    if op == CALL then
      var t :- EnterCall(s);
      var d :- Read(t, a, tb);
      Ok(SetReg(t, IP, (iip + d) % U64))
    else if op == POP then
      var v :- Pop(s);
      Write(v.1, a, v.0, tb)
    else
      var v :- Read(s, a, tb);
      if op == RET then Return(s, v % U32)
      else if JMP <= op <= JMPS then Ok(if Taken(op, Reg(s, FLG)) then SetReg(s, IP, (iip + v) % U64) else s)
      else if op == NOT then Write(s, a, if v == 0 then 1 else 0, i.imd)
      else if op == BNOT then Write(s, a, -v - 1, i.imd)
      else if op == INC then Write(s, a, v + 1, i.imd)
      else if op == DEC then Write(s, a, v - 1, i.imd)
      else if op == PUSH then Push(s, v)
      else if op == POPN then DropWords(s, v % 256)
      else Ok(s.(heap := H.Free(s.heap, v % U32).0))
  }

  /** The instructions with two operands. */
  function Execute2(i: Instruction, tb: nat, s: State): (r: Result<State>)
    requires s.Valid() && i.imd < 4 && tb < 4
    ensures r.Ok? ==> r.value.Valid()
  {
    var a :- PlaceA(s, i);
    var b :- PlaceB(s, i);
    var y :- Read(s, b, tb);
    if i.opc == MOV then Write(s, a, y, i.imd)
    else if i.opc == ALLOC then
      (match H.Alloc(s.heap, y % U32)
       case Granted(h, block) => Write(s.(heap := h), a, block.addr, i.imd)
       case Refused => Write(s, a, 0, i.imd))
    else
      var x :- Read(s, a, i.imd);
      if i.opc == CMP then
        Ok(SetReg(s, FLG, Compare(x, y)))
      else
        var z :- Alu(i.opc, x, y);
        Write(s, a, z, i.imd)
  }

  /** VM_execute: `iip` is the address of the instruction; the ip register is already past it. */
  function Execute(i: Instruction, iip: nat, s: State): (r: Result<State>)
    requires s.Valid() && i.ims < 4 && i.imd < 4
    ensures r.Ok? ==> r.value.Valid()
  {
    var op, tb := i.opc, ModeB(i);
    var _ :- Places(s, i);
    if op == HALT then Ok(s.(halted := true))
    else if op == DBG then Ok(s)
    else if PUTI <= op <= PUTC || NCALL <= op <= RMEM then Bad(NotModelled)
    else if op == MCPY || op == MOD || op > ALLOC then Bad(Aborted)
    else if op >= MOV then Execute2(i, tb, s)
    else
      var a :- PlaceA(s, i);
      Execute1(i, iip, a, tb, s)
  }

  // ---------------------------------------------------------------------------------------------
  // Runs
  // ---------------------------------------------------------------------------------------------

  datatype Status = Running(state: State) | Stopped(state: State) | Failed(fault: Fault)

  ghost predicate ValidStatus(r: Status) {
    !r.Failed? ==> r.state.Valid()
  }

  /** One turn of the loop of VM_run. */
  function Step(code: seq<Byte>, s: State): (r: Status)
    requires s.Valid()
    ensures ValidStatus(r)
  {
    var iip := Reg(s, IP);
    if iip >= |code| then
      Stopped(s)
    else
      match Fetch(code, iip)
      case PastTheEnd => Failed(Aborted)
      case Unreadable => Failed(Crashed)
      case Fetched(i, next) =>
        if i.ims >= 4 || i.imd >= 4 then
          Failed(Crashed)
        else
          match Execute(i, iip, SetReg(s, IP, next))
          case Bad(f) => Failed(f)
          case Ok(t) => if t.halted then Stopped(t) else Running(t)
  }

  /** VM_run for at most `n` turns. */
  function Run(code: seq<Byte>, s: State, n: nat): (r: Status)
    requires s.Valid()
    ensures ValidStatus(r)
    decreases n
  {
    if n == 0 then
      Running(s)
    else
      match Step(code, s)
      case Running(t) => Run(code, t, n - 1)
      case Stopped(t) => Stopped(t)
      case Failed(f) => Failed(f)
  }

  // ---------------------------------------------------------------------------------------------
  // Registers
  // ---------------------------------------------------------------------------------------------

  lemma Pow256Is64()
    ensures Pow256(8) == U64
  {
    assert Pow256(1) == 0x100 && Pow256(2) == 0x1_0000 && Pow256(3) == 0x100_0000 && Pow256(4) == 0x1_0000_0000;
    assert Pow256(5) == 0x100_0000_0000 && Pow256(6) == 0x1_0000_0000_0000 && Pow256(7) == 0x100_0000_0000_0000;
  }

  lemma RegSet(s: State, r: nat, v: int)
    requires s.Valid() && r < REGS && 0 <= v < U64
    ensures Reg(SetReg(s, r, v), r) == v
  {
    Pow256Is64();
    GetUPut(v, 8);
  }

  lemma RegOther(s: State, r: nat, v: int, q: nat)
    requires s.Valid() && r < REGS && q < REGS && q != r
    ensures Reg(SetReg(s, r, v), q) == Reg(s, q)
  {
    var t := SetReg(s, r, v);
    forall x | 8 * q <= x < 8 * q + 8
      ensures t.regs[x] == s.regs[x]
    {
    }
    hide Put, GetU;
    assert t.regs[8 * q..8 * q + 8] == s.regs[8 * q..8 * q + 8];
  }

  lemma RegBound(s: State, r: nat)
    requires s.Valid() && r < REGS
    ensures Reg(s, r) < U64
  {
    Pow256Is64();
    GetURange(s.regs[8 * r..8 * r + 8]);
  }

  lemma SetTwice(s: State, r: nat, v: int, w: int)
    requires s.Valid() && r < REGS
    ensures SetReg(SetReg(s, r, v), r, w) == SetReg(s, r, w)
  {
    assert SetReg(SetReg(s, r, v), r, w).regs == SetReg(s, r, w).regs;
  }

  /** Reading an immediate that fits its size gives its value. */
  lemma ReadImmediate(s: State, v: int, mode: nat)
    requires s.Valid() && mode < 4 && Fits(v, SizeOf(mode))
    ensures Read(s, InImm(Put(v, 8)), mode) == Ok(v)
  {
    PutPrefix(v, SizeOf(mode), 8);
    GetPut(v, SizeOf(mode));
  }

  predicate IsBranch(op: nat) {
    JMP <= op <= JMPS || op == CALL
  }

  /** A branch over the distance in its immediate. */
  lemma ExecuteJump(j: Instruction, iip: nat, s: State)
    requires s.Valid() && j.ims < 4 && j.imd < 4
    requires j.osz == 2 && j.rmd && !j.iam && JMP <= j.opc <= JMPS && Fits(j.ii, SizeOf(j.ims))
    ensures Execute(j, iip, s) == Ok(if Taken(j.opc, Reg(s, FLG)) then SetReg(s, IP, (iip + j.ii) % U64) else s)
  {
    hide EnterCall, Read, SetReg, Reg, Taken, Put, Fits, Execute2, Return, Pop, Push, Write, DropWords;
    ReadImmediate(s, j.ii, j.ims);
  }

  lemma ExecuteCall(j: Instruction, iip: nat, s: State)
    requires s.Valid() && j.ims < 4 && j.imd < 4
    requires j.osz == 2 && j.rmd && !j.iam && j.opc == CALL && Fits(j.ii, SizeOf(j.ims))
    ensures EnterCall(s).Bad? ==> Execute(j, iip, s) == Bad(EnterCall(s).fault)
    ensures EnterCall(s).Ok? ==> Execute(j, iip, s) == Ok(SetReg(EnterCall(s).value, IP, (iip + j.ii) % U64))
  {
    hide EnterCall, Read, SetReg, Reg, Taken, Put, Fits, Execute2, Return, Pop, Push, Write, DropWords;
    if EnterCall(s).Ok? {
      ReadImmediate(EnterCall(s).value, j.ii, j.ims);
    }
  }

  // ---------------------------------------------------------------------------------------------
  // Instructions that only move on
  // ---------------------------------------------------------------------------------------------

  predicate Transfers(op: nat) {
    op == RET || IsBranch(op)
  }

  /** The first operand is register `r` itself. */
  predicate NamesRegister(i: Instruction, r: nat) {
    (i.osz == 3 || (i.osz == 2 && !i.rmd)) && !i.iam && i.ra == r
  }

  lemma WriteKeepsReg(s: State, p: Place, v: int, mode: nat, r: nat)
    requires s.Valid() && mode < 4 && r < REGS && p != InReg(r)
    ensures Write(s, p, v, mode).Ok? ==> Reg(Write(s, p, v, mode).value, r) == Reg(s, r)
  {
    if Write(s, p, v, mode).Ok? {
      var t := Write(s, p, v, mode).value;
      forall x | 8 * r <= x < 8 * r + 8
        ensures t.regs[x] == s.regs[x]
      {
      }
      hide Put, GetU, Write;
      assert t.regs[8 * r..8 * r + 8] == s.regs[8 * r..8 * r + 8];
    }
  }

  lemma StackKeepsReg(s: State, v: int, count: nat, r: nat)
    requires s.Valid() && r < REGS && r != SP
    ensures Push(s, v).Ok? ==> Reg(Push(s, v).value, r) == Reg(s, r)
    ensures Pop(s).Ok? ==> Reg(Pop(s).value.1, r) == Reg(s, r)
    ensures DropWords(s, count).Ok? ==> Reg(DropWords(s, count).value, r) == Reg(s, r)
  {
    hide Reg, SetReg, Splice, Put, Get, Write, Read;
    var sp := Reg(s, SP);
    RegOther(s, SP, (sp - 8) % U64, r);
    RegOther(s, SP, (sp + 8) % U64, r);
    RegOther(s, SP, (sp + 8 * (count % 256)) % U64, r);
    if Push(s, v).Ok? {
      var t := Reserve(s, 1).value;
      WriteKeepsReg(t, InRam(Reg(t, SP) % U32), v, 3, r);
    }
  }

  lemma HeapKeepsRegs(s: State, h: H.Heap, r: nat)
    requires s.Valid() && r < REGS && h.aln > 0
    ensures Reg(s.(heap := h), r) == Reg(s, r) && Reg(s.(halted := true), r) == Reg(s, r)
  {
  }

  lemma PlaceAOther(i: Instruction, s: State)
    requires s.Valid() && !NamesRegister(i, IP)
    ensures PlaceA(s, i).Ok? ==> PlaceA(s, i).value != InReg(IP)
  {
  }

  lemma Plain2KeepsIp(i: Instruction, tb: nat, s: State)
    requires s.Valid() && i.imd < 4 && tb < 4 && !NamesRegister(i, IP)
    ensures Execute2(i, tb, s).Ok? ==> Reg(Execute2(i, tb, s).value, IP) == Reg(s, IP)
  {
    hide Reg, SetReg, Splice, Put, Get, Write, Read, PlaceA, PlaceB, Alu;
    PlaceAOther(i, s);
    if Execute2(i, tb, s).Ok? {
      var a, y := PlaceA(s, i).value, Read(s, PlaceB(s, i).value, tb).value;
      WriteKeepsReg(s, a, y, i.imd, IP);
      if i.opc == ALLOC {
        WriteKeepsReg(s, a, 0, i.imd, IP);
        match H.Alloc(s.heap, y % U32) {
          case Granted(h, block) =>
            HeapKeepsRegs(s, h, IP);
            WriteKeepsReg(s.(heap := h), a, block.addr, i.imd, IP);
          case Refused =>
        }
      } else if i.opc != MOV {
        var x := Read(s, a, i.imd).value;
        RegOther(s, FLG, Compare(x, y), IP);
        if Alu(i.opc, x, y).Ok? {
          WriteKeepsReg(s, a, Alu(i.opc, x, y).value, i.imd, IP);
        }
      }
    }
  }

  /** Apart from jumps, calls and returns, an instruction leaves ip where the fetch put it. */
  lemma PlainKeepsIp(i: Instruction, iip: nat, s: State)
    requires s.Valid() && i.ims < 4 && i.imd < 4 && !Transfers(i.opc) && !NamesRegister(i, IP)
    ensures Execute(i, iip, s).Ok? ==> Reg(Execute(i, iip, s).value, IP) == Reg(s, IP)
  {
    hide Reg, SetReg, Splice, Put, Get, Write, Read, Push, Pop, DropWords, Execute2, Return, EnterCall, PlaceA;
    HeapKeepsRegs(s, s.heap, IP);
    if Execute(i, iip, s).Ok? && i.opc != HALT && i.opc != DBG {
      var tb := ModeB(i);
      PlaceAOther(i, s);
      if i.opc >= MOV {
        Plain2KeepsIp(i, tb, s);
      } else {
        var a := PlaceA(s, i).value;
        if i.opc == POP {
          StackKeepsReg(s, 0, 0, IP);
          var v := Pop(s).value;
          WriteKeepsReg(v.1, a, v.0, tb, IP);
        } else {
          var v := Read(s, a, tb).value;
          StackKeepsReg(s, v, v % 256, IP);
          WriteKeepsReg(s, a, if v == 0 then 1 else 0, i.imd, IP);
          WriteKeepsReg(s, a, -v - 1, i.imd, IP);
          WriteKeepsReg(s, a, v + 1, i.imd, IP);
          WriteKeepsReg(s, a, v - 1, i.imd, IP);
          HeapKeepsRegs(s, H.Free(s.heap, v % U32).0, IP);
        }
      }
    }
  }
}
