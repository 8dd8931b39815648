/**
 The start of a run without arguments: cleared registers, the stack at the end of the RAM, the address of the first
 instruction from the header of the code, and a frame from which a return leads behind the code.
 */
module Startup {
  import opened Basics
  import opened Bytes
  import opened Instructions
  import opened Machine
  import opened Calls

  const CODE_HEADER: nat := 16

  /** VM_run up to its loop, for no arguments. */
  function Booted(s: State, code: seq<Byte>): (r: Result<State>)
    requires s.Valid() && |code| >= CODE_HEADER
    ensures r.Ok? ==> r.value.Valid()
  {
    var s0 := s.(regs := seq(8 * REGS, i => 0));
    var s1 := SetReg(SetReg(s0, SP, |s.ram|), BP, |s.ram|);
    var s2 := SetReg(s1, IP, GetU(code[8..12]));
    var s3 :- Push(s2, 0);
    var s4 :- Push(s3, |code|);
    var s5 :- Push(s4, Reg(s4, BP));
    Ok(SetReg(s5, BP, Reg(s5, SP)))
  }

  lemma HeaderWord(code: seq<Byte>)
    requires |code| >= CODE_HEADER
    ensures GetU(code[8..12]) < U32
  {
    GetURange(code[8..12]);
    assert Pow256(2) == 0x1_0000 && Pow256(4) == U32;
  }

  /** A push of a number, in the words and the bytes that it changes and that it leaves. */
  lemma PushBelow(s: State, v: nat)
    requires s.Valid() && s.sb + 8 < Reg(s, SP) <= |s.ram| && v < U64
    ensures Push(s, v).Ok?
    ensures var t, sp := Push(s, v).value, Reg(s, SP);
      && Reg(t, SP) == sp - 8 && SameRegsBut(s, t, SP, SP) && SameFrom(s, t, sp) && WordU(t, sp - 8) == v
      && forall x :: 0 <= x < sp - 8 ==> t.ram[x] == s.ram[x]
  {
    hide Put, Reg, GetU, Push;
    PushWord(s, v);
    PushFacts(s, v);
  }

  lemma {:induction false} PutGetU(b: seq<Byte>)
    ensures Put(GetU(b), |b|) == b
    decreases b
  {
    if b != [] {
      PutGetU(b[1..]);
      assert GetU(b) % 256 == b[0] && GetU(b) / 256 == GetU(b[1..]);
    }
  }

  lemma ZeroWord(s: State, a: nat)
    requires a + 8 <= |s.ram| && WordU(s, a) == 0
    ensures Word(s, a) == 0
  {
    var b := s.ram[a..a + 8];
    PutGetU(b);
    PutGet(b);
    GetPutFitsWord(0);
  }

  /**
   With room for three words the machine starts at the address in the header, with empty arguments and a frame
   that returns to the end of the code. Nothing else of the RAM changes.
   */
  lemma BootExact(s: State, code: seq<Byte>) returns (t: State)
    requires s.Valid() && CODE_HEADER <= |code| < U32 && s.sb + 24 < |s.ram|
    ensures Booted(s, code) == Ok(t) && t.Valid() && s.Leads(t)
    ensures Reg(t, IP) == GetU(code[8..12]) && Reg(t, SP) == Reg(t, BP) == |s.ram| - 24
    ensures var bp := |s.ram| - 24;
            WordU(t, bp) == |s.ram| && WordU(t, bp + 8) == |code| && WordU(t, bp + 16) == 0 && Word(t, bp + 16) == 0
    ensures forall x :: 0 <= x < |s.ram| - 24 ==> t.ram[x] == s.ram[x]
  {
    hide Put, Reg, SetReg, GetU, Get, Push, WordU, Word, Splice, SameFrom;
    var n := |s.ram|;
    var s0 := s.(regs := seq(8 * REGS, i => 0));
    HeaderWord(code);
    SetRegFacts(s0, SP, n);
    var s1 := SetReg(s0, SP, n);
    SetRegFacts(s1, BP, n);
    var s2 := SetReg(s1, BP, n);
    SetRegFacts(s2, IP, GetU(code[8..12]));
    var s3 := SetReg(s2, IP, GetU(code[8..12]));
    PushBelow(s3, 0);
    var s4 := Push(s3, 0).value;
    PushBelow(s4, |code|);
    var s5 := Push(s4, |code|).value;
    PushBelow(s5, n);
    var s6 := Push(s5, n).value;
    SameFromWord(s4, s5, n - 8, n - 8);
    SameFromOn(s4, s5, s6, n - 8, n - 16);
    SameFromWord(s4, s6, n - 8, n - 8);
    SameFromWord(s5, s6, n - 16, n - 16);
    SetRegFacts(s6, BP, n - 24);
    t := SetReg(s6, BP, n - 24);
    WordsKept(s6, t);
    ZeroWord(t, n - 8);
  }

  lemma BootedInFrame(t: State)
    requires t.Valid() && Reg(t, SP) == Reg(t, BP) <= |t.ram|
    ensures InFrame(t)
  {
  }

  /** A program that runs well nested from the start and returns stops, whatever it has called on the way. */
  lemma ReturnStops(s: State, code: seq<Byte>, body: Trace)
    requires s.Valid() && CODE_HEADER <= |code| < U32 && s.sb + 24 < |s.ram| && Booted(s, code).Ok?
    requires Follow(code, Booted(s, code).value, body).Some?
    requires ReturnStep(code, Follow(code, Booted(s, code).value, body).value)
    ensures var t := Next(code, Follow(code, Booted(s, code).value, body).value);
            Step(code, t) == Stopped(t)
  {
    var t := BootExact(s, code);
    hide Reg, SetReg, GetU, Get, Push, WordU, Word, SameFrom, ReturnStep, Booted, Follow, Next, Put, Fetch, Execute;
    BootedInFrame(t);
    BodyKeepsFrame(code, t, body);
    var e := Follow(code, t, body).value;
    var bp := |s.ram| - 24;
    SameFromWord(t, e, bp, bp + 8);
    var u, k := StepOfReturn(code, e);
  }
}
