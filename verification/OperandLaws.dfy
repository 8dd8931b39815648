/** What the machine makes of the literals of an instruction, and which ones the instruction format loses. */
module OperandLaws {
  import opened Basics
  import opened Arithmetic
  import opened Bytes
  import opened Instructions
  import opened Assembler
  import opened Machine
  import H = HeapModel

  /** Where the machine finds operand `k` of an instruction. */
  function PlaceOf(s: State, i: Instruction, k: nat): Result<Place>
    requires s.Valid()
  {
    if k == 0 then PlaceA(s, i) else PlaceB(s, i)
  }

  /** The bytes of a literal, or the RAM at that address, cut to 32 bits. */
  function LiteralPlace(s: State, v: int, mem: bool): Result<Place>
    requires s.Valid()
  {
    if !mem then Ok(InImm(Put(v, 8)))
    else if v % U32 > |s.ram| then Bad(Aborted)
    else Ok(InRam(v % U32))
  }

  lemma LiteralPlaceIs(s: State, v: int, mem: bool)
    requires s.Valid()
    ensures ImmPlace(s, v, mem) == LiteralPlace(s, v, mem)
  {
  }

  /** In every state, operand `k` is the literal `v`, or the RAM at that address. */
  ghost predicate Shows(i: Instruction, k: nat, v: int, mem: bool) {
    forall s: State :: s.Valid() ==> PlaceOf(s, i, k) == LiteralPlace(s, v, mem)
  }

  /** Operands as the parser makes them, with immediates that fit their sizes. */
  predicate Usable(ops: seq<Operand>) {
    1 <= |ops| <= 2 && forall k :: 0 <= k < |ops| ==> ValidOperand(ops[k]) && SizedOperand(ops[k])
  }

  lemma LastLiteral(opc: nat, mode: nat, ops: seq<Operand>)
    requires opc < 64 && mode < 4 && Usable(ops) && ops[|ops| - 1].ImmOp?
    ensures var i, a := Build(opc, mode, ops), ops[|ops| - 1];
            WellFormed(i) && ImmediateFits(i) && Shows(Normal(i), |ops| - 1, a.value, a.mem)
  {
    BuildWellFormed(opc, mode, ops);
    hide Fits, ImmPlace, RegPlace;
  }

  lemma FirstLiteral(opc: nat, mode: nat, ops: seq<Operand>)
    requires opc < 64 && mode < 4 && Usable(ops) && |ops| == 2 && ops[0].ImmOp?
    ensures var i := Build(opc, mode, ops);
            WellFormed(i) && Normal(i).osz == 3 && Normal(i).ra == ops[0].mode && Normal(i).iam == ops[0].mem
  {
    BuildWellFormed(opc, mode, ops);
    hide Fits;
  }

  lemma EightBytes(b: Byte)
    requires b == 0 || b == 1
    ensures GetU([b, b, b, b, b, b, b, b]) == b * 0x0101_0101_0101_0101
  {
    assert [b][1..] == [] && GetU([b]) == b;
    assert [b, b][1..] == [b] && GetU([b, b]) == b * 0x0101;
    assert [b, b, b][1..] == [b, b] && GetU([b, b, b]) == b * 0x01_0101;
    assert [b, b, b, b][1..] == [b, b, b] && GetU([b, b, b, b]) == b * 0x0101_0101;
    assert [b, b, b, b, b][1..] == [b, b, b, b] && GetU([b, b, b, b, b]) == b * 0x01_0101_0101;
    assert [b, b, b, b, b, b][1..] == [b, b, b, b, b] && GetU([b, b, b, b, b, b]) == b * 0x0101_0101_0101;
    assert [b, b, b, b, b, b, b][1..] == [b, b, b, b, b, b];
    assert GetU([b, b, b, b, b, b, b]) == b * 0x01_0101_0101_0101;
    assert [b, b, b, b, b, b, b, b][1..] == [b, b, b, b, b, b, b];
  }

  /** A register of equal bytes, cut to 32 bits. */
  lemma FirstRegister(s: State, r: nat, b: Byte)
    requires s.Valid() && r < 4 && (b == 0 || b == 1) && forall x :: 0 <= x < |s.regs| ==> s.regs[x] == b
    ensures Reg(s, r) % U32 == if b == 0 then 0 else 0x0101_0101
  {
    var w := s.regs[8 * r..8 * r + 8];
    assert w == [b, b, b, b, b, b, b, b];
    assert w[1..] == [b, b, b, b, b, b, b];
    assert w[1..][1..] == [b, b, b, b, b, b];
    EightBytes(b);
  }

  /** The first operand of a three-byte instruction is never a literal. */
  lemma NotShown(i: Instruction, v: int, mem: bool)
    requires i.osz == 3 && i.ra < 4 && i.iam == mem
    ensures !Shows(i, 0, v, mem)
  {
    var regs: seq<Byte> := seq(8 * REGS, x => if v % U32 == 0 then 1 else 0);
    var s := State(regs, [], 0, H.Init(1, 16, 8, 100, 1000), false);
    assert s.Valid();
    if mem {
      FirstRegister(s, i.ra, if v % U32 == 0 then 1 else 0);
      hide Reg;
      assert PlaceA(s, i) != ImmPlace(s, v, mem);
    }
    assert PlaceOf(s, i, 0) != ImmPlace(s, v, mem);
  }

  /**
   A literal operand is what the machine decodes and finds in its place exactly when it is the last one. A
   literal in front of another operand is lost: its place is taken for that of a register.
   */
  lemma LiteralShown(pre: seq<Byte>, post: seq<Byte>, opc: nat, mode: nat, ops: seq<Operand>, k: nat)
    requires opc < 64 && mode < 4 && Usable(ops) && k < |ops| && ops[k].ImmOp?
    ensures WellFormed(Build(opc, mode, ops))
    ensures var f := Fetch(pre + Encode(Build(opc, mode, ops)) + post, |pre|);
            f.Fetched? && (Shows(f.instr, k, ops[k].value, ops[k].mem) <==> k == |ops| - 1)
  {
    BuildWellFormed(opc, mode, ops);
    var i := Build(opc, mode, ops);
    FetchEncoded(pre, i, post);
    var j := Fetch(pre + Encode(i) + post, |pre|).instr;
    if k == |ops| - 1 {
      LastLiteral(opc, mode, ops);
      hide Fetch, Encode, Build;
    } else {
      FirstLiteral(opc, mode, ops);
      hide Fetch, Encode, Build;
      NotShown(j, ops[0].value, ops[0].mem);
    }
  }

  /** Words of the same four bytes differ by a multiple of 2^32. */
  lemma SameWord(v: int, w: int)
    requires Put(v, 4) == Put(w, 4)
    ensures v % U32 == w % U32
  {
    var q := SameBytes(v, w, 4);
    assert Pow256(2) == 0x1_0000 && Pow256(4) == U32;
    hide Put, Pow256;
    SameMod(v, w, U32, q);
  }

  /** An immediate that is not the literal, counted in 32 bits, is not taken for it. */
  lemma OtherNotShown(i: Instruction, k: nat, v: int, mem: bool)
    requires i.rmd && (if k == 0 then i.osz == 2 && i.iam == mem else i.osz == 3 && i.ibm == mem)
    requires i.ii % U32 != v % U32
    ensures !Shows(i, k, v, mem)
  {
    var ram: seq<Byte> := seq(U32 - 1, _ => 0);
    var s := State(seq(8 * REGS, _ => 0), ram, 0, H.Init(1, 16, 8, 100, 1000), false);
    assert s.Valid();
    if !mem && Put(i.ii, 8) == Put(v, 8) {
      PutPrefix(i.ii, 4, 8);
      PutPrefix(v, 4, 8);
      SameWord(i.ii, v);
    }
    hide Put;
    assert PlaceOf(s, i, k) != ImmPlace(s, v, mem);
  }

  /** Of `cmp 1, 2` the machine sees register 0 and 2. */
  lemma FirstLiteralLost()
    ensures var i := Build(CMP, 3, [ImmOp(1, 0, false), ImmOp(2, 0, false)]);
            i.ii == 2 && forall s: State :: s.Valid() ==>
                PlaceA(s, i) == Ok(InReg(0)) && PlaceB(s, i) == LiteralPlace(s, 2, false)
  {
  }

  /**
   The offset of an effective address comes out with its exact value when the first operand is a register;
   behind a literal that is so exactly when the literal is zero, as the parser adds them up.
   */
  lemma OffsetShown(opc: nat, mode: nat, ops: seq<Operand>)
    requires opc < 64 && mode < 4 && Usable(ops) && |ops| == 2
    requires ops[1].RegOp? && ops[1].mem && ops[1].offset.Some?
    ensures var i := Build(opc, mode, ops);
            i.iea && (i.ii == ops[1].offset.value.Value() <==> ops[0].RegOp? || ops[0].value == 0)
    ensures ops[0].RegOp? ==> WellFormed(Build(opc, mode, ops)) && ImmediateFits(Build(opc, mode, ops))
  {
    BuildWellFormed(opc, mode, ops);
    if ops[0].RegOp? {
      BuildFits(opc, mode, ops);
    }
  }

  /** The fields that the machine needs for the second operand. */
  lemma OffsetFields(opc: nat, mode: nat, ops: seq<Operand>)
    requires opc < 64 && mode < 4 && Usable(ops) && |ops| == 2
    requires ops[0].RegOp? && ops[1].RegOp? && ops[1].mem && ops[1].offset.Some?
    ensures var i := Normal(Build(opc, mode, ops));
            i.osz == 3 && !i.rmd && i.ibm && i.iea && i.rb == ops[1].reg && i.ii == ops[1].offset.value.Value()
  {
    hide Fits;
  }

  /** An address, moved by an offset. */
  function Moved(p: Result<Place>, offset: int): Result<Place>
    requires p.Ok? ==> p.value.InRam?
  {
    if p.Ok? then Ok(InRam(p.value.addr + offset)) else p
  }

  lemma OffsetAdded(i: Instruction, s: State)
    requires s.Valid() && i.osz == 3 && !i.rmd && i.ibm && i.iea
    ensures RegPlace(s, i.rb, true).Ok? ==> RegPlace(s, i.rb, true).value.InRam?
    ensures PlaceB(s, i) == Moved(RegPlace(s, i.rb, true), i.ii)
  {
  }

  /** The machine adds the offset to the address in the register. */
  lemma OffsetPlace(pre: seq<Byte>, post: seq<Byte>, opc: nat, mode: nat, ops: seq<Operand>, s: State)
    requires opc < 64 && mode < 4 && Usable(ops) && |ops| == 2 && s.Valid()
    requires ops[0].RegOp? && ops[1].RegOp? && ops[1].mem && ops[1].offset.Some?
    ensures WellFormed(Build(opc, mode, ops))
    ensures var f, p := Fetch(pre + Encode(Build(opc, mode, ops)) + post, |pre|), RegPlace(s, ops[1].reg, true);
            f.Fetched? && (p.Ok? ==> p.value.InRam?) &&
            PlaceB(s, f.instr) == Moved(p, ops[1].offset.value.Value())
  {
    OffsetShown(opc, mode, ops);
    OffsetFields(opc, mode, ops);
    var i := Build(opc, mode, ops);
    hide Fetch, Encode, Fits, RegPlace, PlaceB, Build, Moved;
    FetchEncoded(pre, i, post);
    OffsetAdded(Normal(i), s);
  }

  // ---------------------------------------------------------------------------------------------
  // Registers
  // ---------------------------------------------------------------------------------------------

  predicate AllValid(ops: seq<Operand>) {
    forall k :: 0 <= k < |ops| ==> ValidOperand(ops[k])
  }

  /** A register, or the RAM at the address in it, cut to 32 bits and moved by an offset. */
  function RegisterPlace(s: State, reg: nat, mem: bool, offset: int): Result<Place>
    requires s.Valid() && reg < REGS
  {
    if !mem then Ok(InReg(reg))
    else if Reg(s, reg) % U32 > |s.ram| then Bad(Aborted)
    else Ok(InRam(Reg(s, reg) % U32 + offset))
  }

  /** In every state, operand `k` is that register or the RAM it leads to. */
  ghost predicate ShowsRegister(i: Instruction, k: nat, reg: nat, mem: bool, offset: int)
    requires reg < REGS
  {
    forall s: State :: s.Valid() ==> PlaceOf(s, i, k) == RegisterPlace(s, reg, mem, offset)
  }

  predicate Offset(ops: seq<Operand>, k: nat)
    requires k < |ops|
  {
    k == 1 && ops[1].RegOp? && ops[1].mem && ops[1].offset.Some?
  }

  /**
   The offset behind operand `k` as it is decoded: the parser adds it to a literal first operand, and sizes the
   sum by the offset alone.
   */
  function OffsetOf(ops: seq<Operand>, k: nat): int
    requires k < |ops|
  {
    if Offset(ops, k) then
      var l := ops[1].offset.value;
      var lead := if ops[0].ImmOp? then ops[0].value else 0;
      Get(Put(lead + l.Value(), SizeOf(IntegerSize(l.magnitude))))
    else 0
  }

  /** Without a literal in front of it, or behind a literal zero, it is the offset that was written. */
  lemma OffsetAsWritten(ops: seq<Operand>, k: nat)
    requires AllValid(ops) && k < |ops| && Offset(ops, k) && (ops[0].RegOp? || ops[0].value == 0)
    ensures OffsetOf(ops, k) == ops[1].offset.value.Value()
  {
    var l := ops[1].offset.value;
    LiteralFits(l.magnitude, l.negative);
    GetPut(l.Value(), SizeOf(IntegerSize(l.magnitude)));
  }

  /** The fields of a built instruction with a register as operand `k`. */
  lemma RegisterFields(opc: nat, mode: nat, ops: seq<Operand>, k: nat)
    requires opc < 64 && mode < 4 && 1 <= |ops| <= 2 && AllValid(ops) && k < |ops| && ops[k].RegOp?
    ensures var i, a := Build(opc, mode, ops), ops[k];
            && i.osz == |ops| + 1 && WellFormed(i)
            && (if k == 0 then i.ra == a.reg && i.iam == a.mem && (|ops| == 1 ==> !i.rmd)
                else i.rb == a.reg && i.ibm == a.mem && !i.rmd && i.iea == Offset(ops, k))
            && (Offset(ops, k) ==>
                  i.ims == IntegerSize(a.offset.value.magnitude)
                  && i.ii == (if ops[0].ImmOp? then ops[0].value else 0) + a.offset.value.Value())
  {
    BuildWellFormed(opc, mode, ops);
  }

  /** The two places of a decoded instruction with a register. */
  lemma RegisterFound(j: Instruction, k: nat, reg: nat, mem: bool, offset: int)
    requires reg < REGS
    requires if k == 0 then j.ra == reg && j.iam == mem && offset == 0 && (j.osz == 3 || (j.osz == 2 && !j.rmd))
             else j.osz == 3 && !j.rmd && j.rb == reg && j.ibm == mem && offset == if j.iea && mem then j.ii else 0
    ensures ShowsRegister(j, k, reg, mem, offset)
  {
    hide Reg;
    forall s: State | s.Valid() ensures PlaceOf(s, j, k) == RegisterPlace(s, reg, mem, offset) {
    }
  }

  /**
   A register operand is found as the register that was written, or the RAM at the address in it and its
   offset, wherever the instruction stands in the code and whatever the other operand is.
   */
  lemma RegisterShown(pre: seq<Byte>, post: seq<Byte>, opc: nat, mode: nat, ops: seq<Operand>, k: nat)
    requires opc < 64 && mode < 4 && 1 <= |ops| <= 2 && AllValid(ops) && k < |ops| && ops[k].RegOp?
    ensures WellFormed(Build(opc, mode, ops))
    ensures var f := Fetch(pre + Encode(Build(opc, mode, ops)) + post, |pre|);
            f.Fetched? && ShowsRegister(f.instr, k, ops[k].reg, ops[k].mem, OffsetOf(ops, k))
  {
    var i := Build(opc, mode, ops);
    RegisterFields(opc, mode, ops, k);
    hide Fetch, Encode, Build, ShowsRegister, Put, Get;
    FetchEncoded(pre, i, post);
    var j := Fetch(pre + Encode(i) + post, |pre|).instr;
    RegisterFound(j, k, ops[k].reg, ops[k].mem, OffsetOf(ops, k));
  }

  /** The opcode, the number of operands, and with an operand the mode, come out as they were given. */
  lemma HeadShown(pre: seq<Byte>, post: seq<Byte>, opc: nat, mode: nat, ops: seq<Operand>)
    requires opc < 64 && mode < 4 && |ops| <= 2 && AllValid(ops)
    ensures WellFormed(Build(opc, mode, ops))
    ensures var f := Fetch(pre + Encode(Build(opc, mode, ops)) + post, |pre|);
            f.Fetched? && f.instr.opc == opc && f.instr.osz == |ops| + 1 && (ops != [] ==> f.instr.imd == mode)
  {
    BuildWellFormed(opc, mode, ops);
    FetchEncoded(pre, Build(opc, mode, ops), post);
    hide Fetch, Encode;
  }
}
