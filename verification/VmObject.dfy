/**
 The machine as the program keeps it: register and RAM arrays that are written in place, and the heap with
 its linked records. Every method is proved to do what the functions of Machine say, on every state.
 */
module VmObject {
  import opened Basics
  import opened Bytes
  import opened Instructions
  import opened Machine
  import H = HeapModel
  import HeapBlocks
  import opened Natives
  import opened Startup

  /** Popping changes no byte of the RAM, so the word can be read afterwards. */
  lemma RamOnly(s: State, t: State, a: int)
    requires s.Valid() && t.Valid() && Drop(s, 1) == Ok((a, t))
    ensures t.ram == s.ram && Read(t, InRam(a), 3) == Read(s, InRam(a), 3)
  {
  }

  class Vm {
    const regs: array<Byte>
    const ram: array<Byte>
    const sb: nat
    const heap: HeapBlocks.Heap32
    var halted: bool

    ghost predicate Valid()
      reads this, regs, ram, heap
    {
      regs.Length == 8 * REGS && ram.Length < U32 && regs != ram && heap.Valid()
    }

    ghost function Value(): State
      reads this, regs, ram, heap
    {
      State(regs[..], ram[..], sb, heap.View(), halted)
    }

    /** VM_init_ after the layout has been computed: cleared registers, RAM of any contents, an empty heap. */
    constructor (contents: seq<Byte>, sb: nat, records: seq<HeapBlocks.HeapBlock>, sth: nat, aln: nat,
                 hb: nat, lmt: nat)
      requires |contents| < U32 && records != [] && HeapBlocks.Words(records) && 0 < aln && hb < U32 && lmt < U32
      ensures Valid() && fresh(regs) && fresh(ram) && fresh(heap)
      ensures Value() == State(seq(8 * REGS, i => 0), contents, sb, H.Init(|records|, sth, aln, hb, lmt), false)
    {
      regs := new Byte[8 * REGS](_ => 0);
      ram := new Byte[|contents|](i requires 0 <= i < |contents| => contents[i]);
      heap := new HeapBlocks.Heap32(records, sth, aln, hb, lmt);
      this.sb, halted := sb, false;
      new;
      assert regs[..] == seq(8 * REGS, i => 0);
      assert ram[..] == contents;
    }

    /** Copies bytes into an array. */
    static method Store(a: array<Byte>, at: nat, b: seq<Byte>)
      requires at + |b| <= a.Length
      modifies a
      ensures a[..] == Splice(old(a[..]), at, b)
    {
      var i := 0;
      while i < |b|
        invariant i <= |b| && forall k :: 0 <= k < i ==> a[at + k] == b[k]
        invariant forall k :: 0 <= k < a.Length && !(at <= k < at + i) ==> a[k] == old(a[k])
      {
        a[at + i] := b[i];
        i := i + 1;
      }
    }

    method GetReg(r: nat) returns (v: nat)
      requires Valid() && r < REGS
      ensures v == Reg(Value(), r)
    {
      hide GetU;
      v := GetU(regs[8 * r..8 * r + 8]);
      assert Value().regs[8 * r..8 * r + 8] == regs[8 * r..8 * r + 8];
    }

    method PutReg(r: nat, v: int)
      requires Valid() && r < REGS
      modifies regs
      ensures Valid() && Value() == SetReg(old(Value()), r, v)
    {
      hide Put, Splice;
      Store(regs, 8 * r, Put(v, 8));
    }

    /** VM_read */
    method ReadAt(p: Place, mode: nat) returns (r: Result<int>)
      requires Valid() && mode < 4
      ensures r == Read(Value(), p, mode)
    {
      hide Get;
      var n := SizeOf(mode);
      match p {
        case InReg(q) =>
          if q >= REGS {
            return Bad(Crashed);
          }
          assert Value().regs[8 * q..8 * q + n] == regs[8 * q..8 * q + n];
          return Ok(Get(regs[8 * q..8 * q + n]));
        case InRam(a) =>
          if a < 0 || a + n > ram.Length {
            return Bad(Crashed);
          }
          assert Value().ram[a..a + n] == ram[a..a + n];
          return Ok(Get(ram[a..a + n]));
        case InImm(b) =>
          return if n <= |b| then Ok(Get(b[..n])) else Bad(Crashed);
      }
    }

    /** The method has ended like the function: with its fault, or in its state. */
    ghost predicate Done(r: Result<()>, spec: Result<State>)
      reads this, regs, ram, heap
    {
      match spec
      case Bad(f) => r == Bad(f)
      case Ok(t) => r == Ok(()) && Value() == t
    }

    /** VM_write */
    method WriteAt(p: Place, v: int, mode: nat) returns (r: Result<()>)
      requires Valid() && mode < 4
      modifies regs, ram
      ensures Valid() && Done(r, Write(old(Value()), p, v, mode))
    {
      hide Put, Splice;
      var n := SizeOf(mode);
      match p {
        case InReg(q) =>
          if q >= REGS {
            return Bad(Crashed);
          }
          Store(regs, 8 * q, Put(v, n));
        case InRam(a) =>
          if a < 0 || a + n > ram.Length {
            return Bad(Crashed);
          }
          Store(ram, a, Put(v, n));
        case InImm(_) =>
      }
      return Ok(());
    }

    /** The same for a method that also has an answer. */
    ghost predicate Answered(r: Result<int>, spec: Result<(int, State)>)
      reads this, regs, ram, heap
    {
      match spec
      case Bad(f) => r == Bad(f)
      case Ok((v, t)) => r == Ok(v) && Value() == t
    }

    method Address(addr: int) returns (r: Result<int>)
      requires Valid()
      ensures r == Mem(Value(), addr)
    {
      var cut := addr % U32;
      return if cut > ram.Length then Bad(Aborted) else Ok(cut);
    }

    // ---------------------------------------------------------------------------------------------
    // The stack
    // ---------------------------------------------------------------------------------------------

    /** VM_pushn without data */
    method PushN(count: nat) returns (r: Result<()>)
      requires Valid()
      modifies regs, ram
      ensures Valid() && Done(r, Reserve(old(Value()), count))
    {
      hide Reg, SetReg;
      var was := GetReg(SP);
      var sp := (was - 8 * (count % 256)) % U64;
      if sp <= sb {
        return Bad(Aborted);
      }
      var _ :- Address(sp);
      PutReg(SP, sp);
      return Ok(());
    }

    /** VM_push */
    method PushWord(v: int) returns (r: Result<()>)
      requires Valid()
      modifies regs, ram
      ensures Valid() && Done(r, Push(old(Value()), v))
    {
      hide Reg, SetReg, Reserve, Write, Mem;
      var _ :- PushN(1);
      var sp := GetReg(SP);
      var a :- Address(sp);
      r := WriteAt(InRam(a), v, 3);
    }

    /** VM_popn */
    method PopN(count: nat) returns (r: Result<int>)
      requires Valid()
      modifies regs, ram
      ensures Valid() && Answered(r, Drop(old(Value()), count))
    {
      hide Reg, SetReg, Mem;
      var sp := GetReg(SP);
      var size := 8 * (count % 256);
      var up := (sp + size) % U64;
      if up > ram.Length {
        return Bad(Aborted);
      }
      var a :- Address(sp);
      PutReg(SP, up);
      return Ok(a);
    }

    /** VM_pop */
    method PopWord() returns (r: Result<int>)
      requires Valid()
      modifies regs, ram
      ensures Valid() && Answered(r, Pop(old(Value())))
    {
      hide Reg, SetReg, Drop, Read;
      var a :- PopN(1);
      ghost var before := Value();
      r := ReadAt(InRam(a), 3);
      assert r == Read(before, InRam(a), 3);
      RamOnly(old(Value()), before, a);
    }

    /** VM_pushn with data that is in RAM itself */
    method PushFrom(from: int, count: nat) returns (r: Result<()>)
      requires Valid()
      modifies regs, ram
      ensures Valid() && Done(r, PushCopy(old(Value()), from, count))
    {
      hide Reg, SetReg, Reserve, Splice, Mem;
      var _ :- PushN(count);
      var sp := GetReg(SP);
      var to :- Address(sp);
      var n := 8 * (count % 256);
      if 0 <= from && from + n <= ram.Length && 0 <= to && to + n <= ram.Length && (from + n <= to || to + n <= from) {
        assert Value().ram[from..from + n] == ram[from..from + n];
        Store(ram, to, ram[from..from + n]);
        return Ok(());
      }
      return Bad(Crashed);
    }

    // ---------------------------------------------------------------------------------------------
    // Calls
    // ---------------------------------------------------------------------------------------------

    method CallFrame() returns (r: Result<()>)
      requires Valid()
      modifies regs, ram
      ensures Valid() && Done(r, EnterCall(old(Value())))
    {
      hide Reg, SetReg, Push;
      var ip := GetReg(IP);
      var _ :- PushWord(ip);
      var bp := GetReg(BP);
      var _ :- PushWord(bp);
      var sp := GetReg(SP);
      PutReg(BP, sp);
      return Ok(());
    }

    method LeaveFrame() returns (r: Result<int>)
      requires Valid()
      modifies regs, ram
      ensures Valid() && Answered(r, PopFrame(old(Value())))
    {
      hide Reg, SetReg, Pop;
      var base := GetReg(BP);
      PutReg(SP, base);
      var bp :- PopWord();
      PutReg(BP, bp);
      var ip :- PopWord();
      PutReg(IP, ip);
      r := PopWord();
    }

    method DropArgs(nargs: nat) returns (r: Result<()>)
      requires Valid()
      modifies regs, ram
      ensures Valid() && Done(r, DropArguments(old(Value()), nargs))
    {
      hide Reg, SetReg, Drop;
      if nargs > 0 {
        var _ :- PopN(nargs);
      }
      return Ok(());
    }

    /** `ret`: the results are copied from where they were before the frame went. */
    method Ret(nret: nat) returns (r: Result<()>)
      requires Valid()
      modifies regs, ram
      ensures Valid() && Done(r, Return(old(Value()), nret))
    {
      hide Reg, SetReg, Drop, PopFrame, DropArguments, PushCopy, Push;
      var ret := 0;
      if nret > 0 {
        ret :- PopN(nret);
      }
      var nargs :- LeaveFrame();
      var _ :- DropArgs(nargs % U32);
      if nret > 0 {
        var _ :- PushFrom(ret, nret);
      }
      r := PushWord(nret);
    }

    /** VM_pushn with data from outside */
    method PushValues(data: seq<Byte>, count: nat) returns (r: Result<()>)
      requires Valid() && |data| == 8 * (count % 256)
      modifies regs, ram
      ensures Valid() && Done(r, PushData(old(Value()), data, count))
    {
      hide Reg, SetReg, Reserve, Splice;
      var _ :- PushN(count);
      var sp := GetReg(SP);
      var a :- Address(sp);
      if a + |data| > ram.Length {
        return Bad(Crashed);
      }
      Store(ram, a, data);
      return Ok(());
    }

    /** VM_returnx */
    method NativeReturn(data: seq<Byte>, count: nat) returns (r: Result<()>)
      requires Valid() && |data| == 8 * (count % 256)
      modifies regs, ram
      ensures Valid() && Done(r, ReturnX(old(Value()), data, count))
    {
      hide Reg, SetReg, PopFrame, DropArguments, PushData, Push;
      var nargs :- LeaveFrame();
      var _ :- DropArgs(nargs % U32);
      if count > 0 {
        var _ :- PushValues(data, count);
      }
      r := PushWord(count);
    }

    // ---------------------------------------------------------------------------------------------
    // Instructions
    // ---------------------------------------------------------------------------------------------

    method RegOperand(q: nat, mem: bool) returns (r: Result<Place>)
      requires Valid()
      ensures r == RegPlace(Value(), q, mem)
    {
      hide Reg, Mem;
      if q >= REGS {
        return Bad(Crashed);
      }
      if mem {
        var v := GetReg(q);
        var a :- Address(v);
        return Ok(InRam(a));
      }
      return Ok(InReg(q));
    }

    method ImmOperand(ii: int, mem: bool) returns (r: Result<Place>)
      requires Valid()
      ensures r == ImmPlace(Value(), ii, mem)
    {
      hide Mem, Put;
      if mem {
        var a :- Address(ii);
        return Ok(InRam(a));
      }
      return Ok(InImm(Put(ii, 8)));
    }

    method OperandA(i: Instruction) returns (r: Result<Place>)
      requires Valid()
      ensures r == PlaceA(Value(), i)
    {
      hide RegPlace, ImmPlace;
      if i.osz == 2 && i.rmd {
        r := ImmOperand(i.ii, i.iam);
      } else if 2 <= i.osz <= 3 {
        r := RegOperand(i.ra, i.iam);
      } else {
        r := Bad(Crashed);
      }
    }

    method OperandB(i: Instruction) returns (r: Result<Place>)
      requires Valid()
      ensures r == PlaceB(Value(), i)
    {
      hide Reg, ImmPlace, Mem;
      if i.osz != 3 {
        return Bad(Crashed);
      }
      if i.rmd {
        r := ImmOperand(i.ii, i.ibm);
        return;
      }
      var p :- RegOperand(i.rb, i.ibm);
      return Ok(if i.ibm && i.iea then InRam(p.addr + i.ii) else p);
    }

    method LookUpOperands(i: Instruction) returns (r: Result<()>)
      requires Valid()
      ensures r == Places(Value(), i)
    {
      hide PlaceA, PlaceB;
      if i.osz == 0 || i.osz > 3 {
        return Bad(Crashed);
      }
      if i.osz >= 2 {
        var _ :- OperandA(i);
      }
      if i.osz == 3 {
        var _ :- OperandB(i);
      }
      return Ok(());
    }

    /** VM_execute for two operands */
    method DoExecute2(i: Instruction, tb: nat) returns (r: Result<()>)
      requires Valid() && i.imd < 4 && tb < 4
      modifies this`halted, regs, ram, heap
      ensures Valid() && Done(r, Execute2(i, tb, old(Value())))
    {
      hide Reg, SetReg, PlaceA, PlaceB, Read, Write, Alu, Compare, H.Alloc;
      var a :- OperandA(i);
      var b :- OperandB(i);
      var y :- ReadAt(b, tb);
      if i.opc == MOV {
        r := WriteAt(a, y, i.imd);
      } else if i.opc == ALLOC {
        var addr := heap.VmAlloc(y % U32);
        r := WriteAt(a, addr, i.imd);
      } else {
        var x :- ReadAt(a, i.imd);
        if i.opc == CMP {
          PutReg(FLG, Compare(x, y));
          return Ok(());
        }
        var z :- Alu(i.opc, x, y);
        r := WriteAt(a, z, i.imd);
      }
    }

    method DropN(count: nat) returns (r: Result<()>)
      requires Valid()
      modifies regs, ram
      ensures Valid() && Done(r, DropWords(old(Value()), count))
    {
      hide Drop;
      var _ :- PopN(count);
      return Ok(());
    }

    /** The operations on the value `v` of the operand. */
    method DoOperate1(i: Instruction, iip: nat, a: Place, tb: nat, v: int) returns (r: Result<()>)
      requires Valid() && i.imd < 4 && tb < 4 && i.opc != CALL && i.opc != POP && Read(Value(), a, tb) == Ok(v)
      modifies this`halted, regs, ram, heap
      ensures Valid() && Done(r, Execute1(i, iip, a, tb, old(Value())))
    {
      hide Reg, SetReg, Read, Write, Push, Return, DropWords, Taken, H.Free;
      if i.opc == RET {
        r := Ret(v % U32);
      } else if JMP <= i.opc <= JMPS {
        var flg := GetReg(FLG);
        if Taken(i.opc, flg) {
          PutReg(IP, (iip + v) % U64);
        }
        return Ok(());
      } else if i.opc == NOT {
        r := WriteAt(a, if v == 0 then 1 else 0, i.imd);
      } else if i.opc == BNOT {
        r := WriteAt(a, -v - 1, i.imd);
      } else if i.opc == INC {
        r := WriteAt(a, v + 1, i.imd);
      } else if i.opc == DEC {
        r := WriteAt(a, v - 1, i.imd);
      } else if i.opc == PUSH {
        r := PushWord(v);
      } else if i.opc == POPN {
        r := DropN(v % 256);
      } else {
        var _ := heap.VmFree(v % U32);
        return Ok(());
      }
    }

    /** VM_execute for one operand at `a` */
    method DoExecute1(i: Instruction, iip: nat, a: Place, tb: nat) returns (r: Result<()>)
      requires Valid() && i.imd < 4 && tb < 4
      modifies this`halted, regs, ram, heap
      ensures Valid() && Done(r, Execute1(i, iip, a, tb, old(Value())))
    {
      hide Reg, SetReg, EnterCall, Pop, Read, Write, Push, Return, DropWords, Taken, H.Free;
      if i.opc == CALL {
        var _ :- CallFrame();
        var d :- ReadAt(a, tb);
        PutReg(IP, (iip + d) % U64);
        return Ok(());
      }
      if i.opc == POP {
        var w :- PopWord();
        r := WriteAt(a, w, tb);
        return;
      }
      var v :- ReadAt(a, tb);
      r := DoOperate1(i, iip, a, tb, v);
    }

    /** VM_execute */
    method DoExecute(i: Instruction, iip: nat) returns (r: Result<()>)
      requires Valid() && i.ims < 4 && i.imd < 4
      modifies this`halted, regs, ram, heap
      ensures Valid() && Done(r, Execute(i, iip, old(Value())))
    {
      hide Reg, SetReg, PlaceA, Execute1, Execute2, Places;
      var _ :- LookUpOperands(i);
      if i.opc == HALT {
        halted := true;
        return Ok(());
      }
      if i.opc == DBG {
        return Ok(());
      }
      if PUTI <= i.opc <= PUTC || NCALL <= i.opc <= RMEM {
        return Bad(NotModelled);
      }
      if i.opc == MCPY || i.opc == MOD || i.opc > ALLOC {
        return Bad(Aborted);
      }
      if i.opc >= MOV {
        r := DoExecute2(i, ModeB(i));
        return;
      }
      var a :- OperandA(i);
      r := DoExecute1(i, iip, a, ModeB(i));
    }

    /** VM_fetch: the instruction at ip, which moves on behind it. */
    method FetchNextInstruction(code: seq<Byte>) returns (f: Fetched)
      requires Valid()
      modifies regs
      ensures Valid() && f == Fetch(code, Reg(old(Value()), IP))
      ensures f.Fetched? ==> Value() == SetReg(old(Value()), IP, f.next)
    {
      hide Reg, SetReg, Get;
      var ip := GetReg(IP);
      if ip + 1 > |code| {
        return PastTheEnd;
      }
      var instr := WithByte1(BLANK, code[ip]);
      ip := ip + 1;
      if instr.osz == 1 {
        PutReg(IP, ip);
        return Fetched(instr, ip);
      }
      if ip + (instr.osz - 1) > |code| {
        return PastTheEnd;
      }
      if ip == |code| {
        return Unreadable;
      }
      instr := WithByte2(instr, code[ip]);
      ip := ip + 1;
      if instr.osz == 3 {
        instr := WithByte3(instr, code[ip]);
        ip := ip + 1;
      }
      f := FetchImmediate(instr, code, ip);
      if f.Fetched? {
        PutReg(IP, f.next);
      }
    }

    /** One turn of the loop of VM_run; false when it is over. */
    method Turn(code: seq<Byte>) returns (goes: bool, r: Result<()>)
      requires Valid()
      modifies this`halted, regs, ram, heap
      ensures Valid()
      ensures match Step(code, old(Value()))
              case Running(t) => goes && r == Ok(()) && Value() == t
              case Stopped(t) => !goes && r == Ok(()) && Value() == t
              case Failed(f) => !goes && r == Bad(f)
    {
      hide Reg, SetReg, Fetch, Execute;
      var iip := GetReg(IP);
      if iip >= |code| {
        return false, Ok(());
      }
      var f := FetchNextInstruction(code);
      match f {
        case PastTheEnd => return false, Bad(Aborted);
        case Unreadable => return false, Bad(Crashed);
        case Fetched(i, next) =>
          if i.ims >= 4 || i.imd >= 4 {
            return false, Bad(Crashed);
          }
          r := DoExecute(i, iip);
          goes := r.Ok? && !halted;
      }
    }

    /** VM_run up to its loop, for no arguments. */
    method Start(code: seq<Byte>) returns (r: Result<()>)
      requires Valid() && |code| >= CODE_HEADER
      modifies regs, ram
      ensures Valid() && Done(r, Booted(old(Value()), code))
    {
      hide Reg, SetReg, Push, GetU;
      forall k | 0 <= k < regs.Length {
        regs[k] := 0;
      }
      assert Value() == old(Value()).(regs := seq(8 * REGS, i => 0)) by {
        assert regs[..] == seq(8 * REGS, i => 0);
      }
      PutReg(SP, ram.Length);
      PutReg(BP, ram.Length);
      PutReg(IP, GetU(code[8..12]));
      var _ :- PushWord(0);
      var _ :- PushWord(|code|);
      var bp := GetReg(BP);
      var _ :- PushWord(bp);
      var sp := GetReg(SP);
      PutReg(BP, sp);
      return Ok(());
    }

    /** The loop of VM_run, for at most `n` turns. */
    method RunLoop(code: seq<Byte>, n: nat) returns (goes: bool, r: Result<()>)
      requires Valid()
      modifies this`halted, regs, ram, heap
      ensures Valid()
      ensures match Machine.Run(code, old(Value()), n)
              case Running(t) => goes && r == Ok(()) && Value() == t
              case Stopped(t) => !goes && r == Ok(()) && Value() == t
              case Failed(f) => !goes && r == Bad(f)
    {
      hide Step;
      var left := n;
      goes, r := true, Ok(());
      while left > 0
        invariant 0 <= left <= n && Valid() && goes && r == Ok(())
        invariant Machine.Run(code, old(Value()), n) == Machine.Run(code, Value(), left)
        decreases left
      {
        ghost var before := Value();
        goes, r := Turn(code);
        if !goes {
          return;
        }
        left := left - 1;
      }
    }
  }
}
