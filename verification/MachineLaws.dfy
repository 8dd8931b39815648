/** What single instructions promise to programs: comparisons and jumps, memory, the stack, division. */
module MachineLaws {
  import opened Basics
  import opened Arithmetic
  import opened Bytes
  import opened Instructions
  import opened Machine
  import opened Calls

  /** A conditional jump behind a comparison is taken exactly when its relation holds. */
  lemma ComparisonDecides(x: int, y: int)
    ensures Taken(JMPZ, Compare(x, y)) <==> x == y
    ensures Taken(JMPNZ, Compare(x, y)) <==> x != y
    ensures Taken(JMPG, Compare(x, y)) <==> x > y
    ensures Taken(JMPS, Compare(x, y)) <==> x < y
  {
  }

  /** The same for the two instructions: `cmp` of two registers, then the jump over `d` bytes. */
  lemma CompareThenJump(s: State, cmp: Instruction, jump: Instruction, iip: nat)
    requires s.Valid() && cmp.opc == CMP && cmp.osz == 3 && !cmp.rmd && !cmp.iam && !cmp.ibm
    requires cmp.ra < REGS && cmp.rb < REGS && cmp.imd < 4 && cmp.ims < 4
    requires jump.osz == 2 && jump.rmd && !jump.iam && JMPZ <= jump.opc <= JMPS && jump.ims < 4 && jump.imd < 4
    requires Fits(jump.ii, SizeOf(jump.ims))
    ensures Execute(cmp, iip, s).Ok?
    ensures var t := Execute(cmp, iip, s).value;
            var x, y := Read(s, InReg(cmp.ra), cmp.imd).value, Read(s, InReg(cmp.rb), cmp.imd).value;
            var holds := if jump.opc == JMPZ then x == y else if jump.opc == JMPNZ then x != y
                         else if jump.opc == JMPG then x > y else x < y;
            Execute(jump, iip, t) == Ok(if holds then SetReg(t, IP, (iip + jump.ii) % U64) else t)
  {
    hide Reg, SetReg, Fits, Put, Get, EnterCall, Return, Push, Pop, Write, Execute1;
    var x, y := Read(s, InReg(cmp.ra), cmp.imd).value, Read(s, InReg(cmp.rb), cmp.imd).value;
    assert Execute(cmp, iip, s) == Ok(SetReg(s, FLG, Compare(x, y)));
    var t := SetReg(s, FLG, Compare(x, y));
    SetRegFacts(s, FLG, Compare(x, y));
    ExecuteJump(jump, iip, t);
    ComparisonDecides(x, y);
  }

  /** What is written to a register or to RAM is read back exactly when it fits the size. */
  lemma WriteThenRead(s: State, p: Place, v: int, mode: nat)
    requires s.Valid() && mode < 4 && !p.InImm? && Write(s, p, v, mode).Ok?
    ensures var r := Read(Write(s, p, v, mode).value, p, mode);
            r.Ok? && (r.value == v <==> Fits(v, SizeOf(mode)))
  {
    hide Put, Get, Fits;
    GetPut(v, SizeOf(mode));
  }

  /** A popped word is the pushed one, and the stack is as before. */
  lemma PushThenPop(s: State, v: int)
    requires s.Valid() && s.sb + 8 < Reg(s, SP) <= |s.ram| && Fits(v, 8)
    ensures Push(s, v).Ok? && Pop(Push(s, v).value).Ok?
    ensures var r := Pop(Push(s, v).value).value;
            r.0 == v && Reg(r.1, SP) == Reg(s, SP) && SameRegsBut(s, r.1, SP, SP) && SameFrom(s, r.1, Reg(s, SP))
  {
    hide Reg, SetReg, Put, Get, Fits, Splice, Push, Pop;
    PushFacts(s, v);
    var t := Push(s, v).value;
    PopFacts(t);
    GetPut(v, 8);
  }

  lemma EightBytesRange()
    ensures forall v :: Fits(v, 8) <==> LEAST <= v < -LEAST
  {
    assert Pow256(3) == 0x100_0000;
    assert Pow256(7) == 0x100_0000_0000_0000;
  }

  lemma QuotientFits(a: int, b: int, m: int)
    requires Fits(a, 8) && b != 0 && !(a == LEAST && b == -1) && 0 <= m && Abs(b) * m <= Abs(a)
    ensures Fits(if (a < 0) == (b < 0) then m else -m, 8)
  {
    EightBytesRange();
    if Abs(b) > 1 {
      assert 2 * m <= Abs(b) * m;
    }
  }

  /** The four combinations of signs, with the product already formed. */
  lemma RemainderSigns(a: int, b: int, product: int, r: int)
    requires b != 0 && 0 <= r < Abs(b) && (if b > 0 then product else -product) >= 0
    requires Abs(a) == (if b > 0 then product else -product) + r
    ensures var p := if (a < 0) == (b < 0) then product else -product;
            Abs(a - p) < Abs(b) && (a >= 0 ==> a - p >= 0) && (a <= 0 ==> a - p <= 0)
  {
  }

  lemma AluDiv(a: int, b: int)
    ensures Alu(DIV, a, b) ==
            if b == 0 || (a == LEAST && b == -1) then Bad(Crashed)
            else Ok(if (a < 0) == (b < 0) then Abs(a) / Abs(b) else -(Abs(a) / Abs(b)))
  {
  }

  lemma QuotientNat(n: nat, d: nat)
    requires d > 0
    ensures n / d >= 0
  {
    DivMod(n, d);
    MulGrows(d, n / d);
  }

  lemma ProductSigns(b: int, m: int)
    ensures b * -m == -(b * m) && Abs(b) * m == if b > 0 then b * m else -(b * m)
  {
    assert -b * m == -(b * m);
  }

  /**
   Division of two 64-bit numbers gives a result, again of 64 bits, unless the divisor is zero or the quotient
   would be 2^63. It cuts towards zero: the remainder has the sign of the dividend and is smaller than the divisor.
   */
  lemma DivisionTruncates(a: int, b: int)
    requires Fits(a, 8) && Fits(b, 8)
    ensures Alu(DIV, a, b).Ok? <==> b != 0 && !(a == LEAST && b == -1)
    ensures Alu(DIV, a, b).Ok? ==>
              var q := Alu(DIV, a, b).value;
              Fits(q, 8) && Abs(a - b * q) < Abs(b) && (a >= 0 ==> a - b * q >= 0) && (a <= 0 ==> a - b * q <= 0)
  {
    AluDiv(a, b);
    if Alu(DIV, a, b).Ok? {
      var m: int := Abs(a) / Abs(b);
      DivMod(Abs(a), Abs(b));
      ProductSigns(b, m);
      QuotientNat(Abs(a), Abs(b));
      MulNat(Abs(b), m);
      QuotientFits(a, b, m);
      hide Alu, Fits;
      RemainderSigns(a, b, b * m, Abs(a) % Abs(b));
    }
  }

  lemma AluShifts(a: int, b: nat)
    requires b < 64
    ensures Alu(SAR, a, b) == Ok(a / Pow2(b)) && Alu(SAL, a, b) == Ok(a * Pow2(b))
  {
  }

  lemma MulDiv(a: int, p: nat)
    requires p > 0
    ensures a * p / p == a && a / p * p == p * (a / p)
  {
    var q := a * p / p;
    DivMod(a * p, p);
    assert p * (a - q) == a * p - p * q;
    MulGrows(p, a - q);
  }

  /** A right shift is division by a power of two that rounds down, also for negative numbers. */
  lemma ShiftRoundsDown(a: int, b: nat)
    requires b < 64
    ensures Alu(SAR, a, b).Ok?
    ensures var q := Alu(SAR, a, b).value; q * Pow2(b) <= a < q * Pow2(b) + Pow2(b)
    ensures Alu(SAL, a, b) == Ok(a * Pow2(b)) && Alu(SAR, a * Pow2(b), b) == Ok(a)
  {
    var p := Pow2(b);
    AluShifts(a, b);
    AluShifts(a * p, b);
    hide Alu, Pow2;
    DivMod(a, p);
    MulDiv(a, p);
  }

  /** The opcodes for the remainder and for copying memory are known to the assembler only: no state executes them. */
  lemma NotExecuted(i: Instruction, iip: nat, s: State)
    requires s.Valid() && i.ims < 4 && i.imd < 4 && (i.opc == MOD || i.opc == MCPY)
    ensures !Execute(i, iip, s).Ok? && (Places(s, i).Ok? ==> Execute(i, iip, s) == Bad(Aborted))
  {
    hide PlaceA, PlaceB, Execute1, Execute2;
  }
}
