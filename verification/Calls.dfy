/**
 The calling convention: arguments, their count, return address and frame pointer on the way in;
 results and their count on the way out; over every well-nested run.
 */
module Calls {
  import opened Basics
  import opened Bytes
  import opened Instructions
  import opened Machine

  /** The 8 bytes at address `a`, signed and unsigned. */
  function Word(s: State, a: nat): int
    requires a + 8 <= |s.ram|
  {
    Get(s.ram[a..a + 8])
  }

  function WordU(s: State, a: nat): nat
    requires a + 8 <= |s.ram|
  {
    GetU(s.ram[a..a + 8])
  }

  /** RAM is the same from address `a` on. */
  ghost predicate SameFrom(s: State, t: State, a: nat) {
    |s.ram| == |t.ram| && forall x :: a <= x < |s.ram| ==> t.ram[x] == s.ram[x]
  }

  lemma SameLength(s: State, t: State)
    ensures forall a: nat :: SameFrom(s, t, a) ==> |s.ram| == |t.ram|
  {
  }

  lemma SameFromOn(s: State, t: State, u: State, a: nat, b: nat)
    requires SameFrom(s, t, a) && SameFrom(t, u, b)
    ensures forall c :: a <= c && b <= c ==> SameFrom(s, u, c)
  {
  }

  lemma SameFromWord(s: State, t: State, a: nat, x: nat)
    requires SameFrom(s, t, a) && a <= x && x + 8 <= |s.ram|
    ensures t.ram[x..x + 8] == s.ram[x..x + 8]
    ensures Word(t, x) == Word(s, x) && WordU(t, x) == WordU(s, x)
  {
    assert t.ram[x..x + 8] == s.ram[x..x + 8];
  }

  lemma WordsKept(s: State, t: State)
    requires s.ram == t.ram
    ensures forall a: nat :: a + 8 <= |s.ram| ==> WordU(t, a) == WordU(s, a)
  {
  }

  /** Registers other than `r` and `q` are the same. */
  ghost predicate SameRegsBut(s: State, t: State, r: nat, q: nat)
    requires s.Valid() && t.Valid()
  {
    forall x :: 0 <= x < REGS && x != r && x != q ==> Reg(t, x) == Reg(s, x)
  }

  lemma SetRegFacts(s: State, r: nat, v: int)
    requires s.Valid() && r < REGS
    ensures SameRegsBut(s, SetReg(s, r, v), r, r)
    ensures 0 <= v < U64 ==> Reg(SetReg(s, r, v), r) == v
  {
    forall x | 0 <= x < REGS && x != r
      ensures Reg(SetReg(s, r, v), x) == Reg(s, x)
    {
      RegOther(s, r, v, x);
    }
    if 0 <= v < U64 {
      RegSet(s, r, v);
    }
  }

  /** Registers are read from the register bytes only. */
  lemma RegsOnly(t: State, u: State)
    requires t.Valid() && u.Valid() && t.regs == u.regs
    ensures forall x :: 0 <= x < REGS ==> Reg(u, x) == Reg(t, x)
  {
  }

  /** Loading a register from a signed word keeps the word's bits. */
  lemma SetRegWord(s: State, r: nat, b: seq<Byte>)
    requires s.Valid() && r < REGS && |b| == 8
    ensures Reg(SetReg(s, r, Get(b)), r) == GetU(b)
  {
    PutGet(b);
    assert Put(Get(b), 8) == b;
  }

  /** A push with room for it. */
  lemma PushFacts(s: State, v: int)
    requires s.Valid() && s.sb + 8 < Reg(s, SP) <= |s.ram|
    ensures Push(s, v).Ok?
    ensures var t, sp := Push(s, v).value, Reg(s, SP);
      && Reg(t, SP) == sp - 8 && SameRegsBut(s, t, SP, SP) && t.ram == Splice(s.ram, sp - 8, Put(v, 8))
      && SameFrom(s, t, sp) && t.ram[sp - 8..sp] == Put(v, 8)
  {
    hide Put, Reg, SetReg, GetU, Splice;
    var sp := Reg(s, SP);
    assert (sp - 8) % U64 == sp - 8 && (sp - 8) % U32 == sp - 8;
    SetRegFacts(s, SP, sp - 8);
    RegBound(s, SP);
    var t := SetReg(s, SP, sp - 8);
    assert Push(s, v) == Write(t, InRam(sp - 8), v, 3);
    RegsOnly(t, Push(s, v).value);
  }

  /** A pushed register is found at the top of the stack. */
  lemma PushWord(s: State, v: nat)
    requires s.Valid() && s.sb + 8 < Reg(s, SP) <= |s.ram| && v < U64
    ensures Push(s, v).Ok?
    ensures var t, sp := Push(s, v).value, Reg(s, SP);
      && Reg(t, SP) == sp - 8 && SameRegsBut(s, t, SP, SP) && SameFrom(s, t, sp) && WordU(t, sp - 8) == v
  {
    hide Put, Reg, GetU, Splice, Push;
    PushFacts(s, v);
    Pow256Is64();
    GetUPut(v, 8);
  }

  lemma PopFacts(s: State)
    requires s.Valid() && Reg(s, SP) + 8 <= |s.ram|
    ensures Pop(s) == Ok((Word(s, Reg(s, SP)), SetReg(s, SP, Reg(s, SP) + 8)))
    ensures Reg(SetReg(s, SP, Reg(s, SP) + 8), SP) == Reg(s, SP) + 8
    ensures SameRegsBut(s, SetReg(s, SP, Reg(s, SP) + 8), SP, SP)
  {
    hide Put, Reg, SetReg, GetU, Get, Splice;
    var sp := Reg(s, SP);
    assert (sp + 8) % U64 == sp + 8 && sp % U32 == sp;
    SetRegFacts(s, SP, sp + 8);
  }

  // ---------------------------------------------------------------------------------------------
  // Entering
  // ---------------------------------------------------------------------------------------------

  /**
   After `call`, bp and sp point at the caller's bp; the return address is at bp + 8, and what the
   caller had pushed starts at bp + 16: the argument count, and at bp + 24 the last argument.
   */
  lemma EnterCallFrame(s: State)
    requires s.Valid() && s.sb + 16 < Reg(s, SP) <= |s.ram|
    ensures EnterCall(s).Ok?
    ensures var t, bp := EnterCall(s).value, Reg(s, SP) - 16;
      && Reg(t, SP) == bp && Reg(t, BP) == bp
      && WordU(t, bp) == Reg(s, BP) && WordU(t, bp + 8) == Reg(s, IP)
      && SameFrom(s, t, bp + 16)
  {
    hide Push, Put, Splice, Reg, SetReg, GetU, WordU;
    var sp, ip, bp := Reg(s, SP), Reg(s, IP), Reg(s, BP);
    RegBound(s, IP);
    RegBound(s, BP);
    PushWord(s, ip);
    var t := Push(s, ip).value;
    PushWord(t, bp);
    var u := Push(t, bp).value;
    SameFromWord(t, u, sp - 8, sp - 8);
    SetRegFacts(u, BP, sp - 16);
    WordsKept(u, SetReg(u, BP, sp - 16));
  }

  // ---------------------------------------------------------------------------------------------
  // Returning
  // ---------------------------------------------------------------------------------------------

  lemma DropFacts(s: State, count: nat)
    requires s.Valid() && count < 256 && Reg(s, SP) + 8 * count <= |s.ram|
    ensures Drop(s, count) == Ok((Reg(s, SP), SetReg(s, SP, Reg(s, SP) + 8 * count)))
    ensures Reg(SetReg(s, SP, Reg(s, SP) + 8 * count), SP) == Reg(s, SP) + 8 * count
    ensures SameRegsBut(s, SetReg(s, SP, Reg(s, SP) + 8 * count), SP, SP)
  {
    hide Put, Reg, SetReg, GetU, Get, Splice;
    var sp := Reg(s, SP);
    assert (sp + 8 * count) % U64 == sp + 8 * count && sp % U32 == sp;
    SetRegFacts(s, SP, sp + 8 * count);
  }

  /** A reservation with room for it. */
  lemma ReserveFacts(s: State, count: nat)
    requires s.Valid() && count < 256 && s.sb + 8 * count < Reg(s, SP) <= |s.ram|
    ensures var to := Reg(s, SP) - 8 * count;
      && Reserve(s, count) == Ok(SetReg(s, SP, to)) && Reg(SetReg(s, SP, to), SP) == to && Mem(s, to) == Ok(to)
      && SameRegsBut(s, SetReg(s, SP, to), SP, SP)
  {
    hide Put, Reg, SetReg, GetU, Get, Splice;
    var to := Reg(s, SP) - 8 * count;
    assert to % U64 == to && to % U32 == to;
    SetRegFacts(s, SP, to);
  }

  lemma PushCopyFacts(s: State, from: nat, count: nat)
    requires s.Valid() && 0 < count < 256 && s.sb + 8 * count < Reg(s, SP) <= |s.ram| && from + 8 * count <= |s.ram|
    requires from + 8 * count <= Reg(s, SP) - 8 * count || Reg(s, SP) <= from
    ensures PushCopy(s, from, count).Ok?
    ensures var t, to := PushCopy(s, from, count).value, Reg(s, SP) - 8 * count;
      && Reg(t, SP) == to && SameRegsBut(s, t, SP, SP)
      && t.ram == Splice(s.ram, to, s.ram[from..from + 8 * count])
  {
    hide Put, Reg, SetReg, GetU, Get, Splice, Reserve;
    var to := Reg(s, SP) - 8 * count;
    ReserveFacts(s, count);
    var t := SetReg(s, SP, to);
    assert PushCopy(s, from, count) == CopyWithin(t, from, to, 8 * count);
    RegsOnly(t, PushCopy(s, from, count).value);
  }

  /** What `ret k` needs: the frame inside RAM, room for results, and results clear of where they go. */
  ghost predicate CanReturn(s: State, k: nat, n: nat) {
    && s.Valid() && k < 256 && n < 256
    && var bp, sp := Reg(s, BP), Reg(s, SP);
    && bp + 24 + 8 * n <= |s.ram| && sp + 8 * k <= |s.ram|
    && Word(s, bp + 16) == n
    && s.sb + 8 + 8 * k < bp + 24 + 8 * n
    && (k == 0 || sp + 8 * k <= bp + 24 + 8 * n - 8 * k || bp + 24 + 8 * n <= sp)
  }

  lemma PopFrameFacts(s: State, n: nat)
    requires s.Valid() && Reg(s, BP) + 24 <= |s.ram| && Word(s, Reg(s, BP) + 16) == n
    ensures PopFrame(s).Ok? && PopFrame(s).value.0 == n
    ensures var u, bp := PopFrame(s).value.1, Reg(s, BP);
      && u.ram == s.ram && Reg(u, SP) == bp + 24
      && Reg(u, BP) == WordU(s, bp) && Reg(u, IP) == WordU(s, bp + 8)
  {
    hide Put, GetU, Get, Splice, Reg, SetReg, Pop;
    var bp := Reg(s, BP);
    RegBound(s, BP);
    SetRegFacts(s, SP, bp);
    var s1 := SetReg(s, SP, bp);
    PopFacts(s1);
    var p1 := SetReg(s1, SP, bp + 8);
    SetRegWord(p1, BP, s.ram[bp..bp + 8]);
    SetRegFacts(p1, BP, Word(s, bp));
    var s2 := SetReg(p1, BP, Word(s, bp));
    PopFacts(s2);
    var p2 := SetReg(s2, SP, bp + 16);
    SetRegWord(p2, IP, s.ram[bp + 8..bp + 16]);
    SetRegFacts(p2, IP, Word(s, bp + 8));
    var s3 := SetReg(p2, IP, Word(s, bp + 8));
    PopFacts(s3);
  }

  /** The state of a return without the results. */
  lemma DropResults(s: State, k: nat) returns (t: State)
    requires s.Valid() && k < 256 && Reg(s, SP) + 8 * k <= |s.ram|
    ensures t.Valid() && s.Leads(t) && t.ram == s.ram && Reg(t, BP) == Reg(s, BP)
    ensures if k > 0 then Drop(s, k) == Ok((Reg(s, SP), t)) else t == s
  {
    hide Put, GetU, Get, Splice, Reg, SetReg, Drop;
    t := s;
    if k > 0 {
      DropFacts(s, k);
      t := SetReg(s, SP, Reg(s, SP) + 8 * k);
    }
  }

  /** The state of a return without the arguments. */
  lemma DropGiven(s: State, n: nat) returns (t: State)
    requires s.Valid() && n < 256 && Reg(s, SP) + 8 * n <= |s.ram|
    ensures t.Valid() && s.Leads(t) && t.ram == s.ram && DropArguments(s, n) == Ok(t)
    ensures Reg(t, SP) == Reg(s, SP) + 8 * n && Reg(t, BP) == Reg(s, BP) && Reg(t, IP) == Reg(s, IP)
  {
    hide Put, GetU, Get, Splice, Reg, SetReg, Drop;
    t := s;
    if n > 0 {
      DropFacts(s, n);
      t := SetReg(s, SP, Reg(s, SP) + 8 * n);
    }
  }

  /** The state of a return when frame and arguments are gone and the results are still to be copied. */
  lemma Unwind(s: State, k: nat, n: nat) returns (u: State)
    requires CanReturn(s, k, n)
    ensures u.Valid() && s.Leads(u) && u.ram == s.ram
    ensures Reg(u, SP) == Reg(s, BP) + 24 + 8 * n
    ensures Reg(u, BP) == WordU(s, Reg(s, BP)) && Reg(u, IP) == WordU(s, Reg(s, BP) + 8)
    ensures Return(s, k) == (if k > 0 then
                               (match PushCopy(u, Reg(s, SP), k) case Bad(f) => Bad(f) case Ok(t) => Push(t, k))
                             else Push(u, k))
  {
    hide Put, GetU, Get, Splice, Push, PushCopy, Reg, SetReg, Drop, PopFrame, DropArguments;
    var s0 := DropResults(s, k);
    PopFrameFacts(s0, n);
    u := DropGiven(PopFrame(s0).value.1, n);
  }

  lemma GetPutFitsWord(k: nat)
    requires k < U32
    ensures Get(Put(k, 8)) == k
  {
    assert Pow256(1) == 0x100 && Pow256(2) == 0x1_0000 && Pow256(3) == 0x100_0000 && Pow256(4) == 0x1_0000_0000;
    assert Pow256(5) == 0x100_0000_0000 && Pow256(6) == 0x1_0000_0000_0000 && Pow256(7) == 0x100_0000_0000_0000;
    GetPutFits(k, 8);
  }

  /** The end of a return: `k` results from address `from` go below `top`, and their count on top of them. */
  lemma CopyResults(u: State, from: nat, k: nat, top: nat)
    requires u.Valid() && k < 256 && u.sb + 8 + 8 * k < top == Reg(u, SP) <= |u.ram| && from + 8 * k <= |u.ram|
    requires k == 0 || from + 8 * k <= top - 8 * k || top <= from
    ensures var r := if k > 0 then
                       (match PushCopy(u, from, k) case Bad(f) => Bad(f) case Ok(t) => Push(t, k))
                     else Push(u, k);
      && r.Ok?
      && var t, to := r.value, top - 8 * k;
      && Reg(t, BP) == Reg(u, BP) && Reg(t, IP) == Reg(u, IP) && Reg(t, SP) == to - 8 && |t.ram| == |u.ram|
      && Word(t, to - 8) == k
      && t.ram[to..to + 8 * k] == u.ram[from..from + 8 * k]
      && SameFrom(u, t, to + 8 * k)
      && t.ram[..to - 8] == u.ram[..to - 8]
  {
    hide Put, Get, GetU, Push, PushCopy, Reg, SetReg, Splice;
    var to := top - 8 * k;
    var v := u;
    if k > 0 {
      PushCopyFacts(u, from, k);
      v := PushCopy(u, from, k).value;
    }
    PushFacts(v, k);
    GetPutFitsWord(k);
    var t := Push(v, k).value;
    assert t.ram[to - 8..to] == Put(k, 8);
    assert v.ram[to..to + 8 * k] == u.ram[from..from + 8 * k];
    assert t.ram[to..to + 8 * k] == v.ram[to..to + 8 * k];
  }

  /**
   `ret k` restores the caller's bp and return address, takes the frame, the count and the arguments
   off, leaves the k results in order with k on top, and changes nothing else of the caller's stack.
   */
  lemma ReturnRestores(s: State, k: nat, n: nat)
    requires CanReturn(s, k, n)
    ensures Return(s, k).Ok?
    ensures var t, bp, sp := Return(s, k).value, Reg(s, BP), Reg(s, SP);
      var to := bp + 24 + 8 * n - 8 * k;
      && Reg(t, BP) == WordU(s, bp) && Reg(t, IP) == WordU(s, bp + 8)
      && Reg(t, SP) == to - 8
      && Word(t, to - 8) == k
      && t.ram[to..to + 8 * k] == s.ram[sp..sp + 8 * k]
      && SameFrom(s, t, to + 8 * k)
      && t.ram[..to - 8] == s.ram[..to - 8]
  {
    hide Put, Get, GetU, Push, PushCopy, Return, Reg, SetReg, Splice;
    var u := Unwind(s, k, n);
    hide CanReturn;
    CopyResults(u, Reg(s, SP), k, Reg(s, BP) + 24 + 8 * n);
  }

  // ---------------------------------------------------------------------------------------------
  // Well-nested runs
  // ---------------------------------------------------------------------------------------------

  /** The shape of a run of one body: local steps, and calls with the run of their body. */
  datatype Trace = Done | Local(rest: Trace) | Invoke(callee: Trace, rest: Trace)

  /** The instruction at ip, with the state after its fetch. */
  function Fetched0(code: seq<Byte>, s: State): Option<(Instruction, State)>
    requires s.Valid()
  {
    if Reg(s, IP) < |code| && Fetch(code, Reg(s, IP)).Fetched? then
      var f := Fetch(code, Reg(s, IP));
      Some((f.instr, SetReg(s, IP, f.next)))
    else None
  }

  /** The state after one step of a machine that keeps running. */
  function Next(code: seq<Byte>, s: State): (t: State)
    requires s.Valid()
    ensures t.Valid()
  {
    if Step(code, s).Running? then Step(code, s).state else s
  }

  /** The stack pointer is inside the frame of the current body. */
  ghost predicate InFrame(s: State)
    requires s.Valid()
  {
    Reg(s, SP) <= Reg(s, BP) <= |s.ram|
  }

  /** A step that is no call or return and leaves bp and everything from bp on alone. */
  ghost predicate LocalStep(code: seq<Byte>, s: State)
    requires s.Valid()
  {
    var f, r := Fetched0(code, s), Step(code, s);
    && f.Some? && f.value.0.opc != CALL && f.value.0.opc != RET
    && r.Running? && r.state.Valid() && r.state.sb == s.sb
    && Reg(r.state, BP) == Reg(s, BP) && InFrame(r.state) && SameFrom(s, r.state, Reg(s, BP))
  }

  /** The number of words the caller has pushed as arguments. */
  function ArgCount(s: State): int
    requires s.Valid() && Reg(s, SP) + 8 <= |s.ram|
  {
    Word(s, Reg(s, SP))
  }

  /** A call with its arguments and their count pushed inside the caller's frame. */
  ghost predicate CallStep(code: seq<Byte>, s: State)
    requires s.Valid()
  {
    var f, sp := Fetched0(code, s), Reg(s, SP);
    && f.Some? && f.value.0.opc == CALL && Step(code, s).Running?
    && s.sb + 16 < sp && sp + 8 <= |s.ram|
    && 0 <= ArgCount(s) < 256 && sp + 8 + 8 * ArgCount(s) <= Reg(s, BP) <= |s.ram|
  }

  /** The operand of a return. */
  function ReturnCount(i: Instruction, s: State): Result<nat>
    requires s.Valid() && i.ims < 4 && i.imd < 4
  {
    var a :- PlaceA(s, i);
    var v :- Read(s, a, ModeB(i));
    Ok(v % U32)
  }

  ghost predicate ReturnStep(code: seq<Byte>, s: State)
    requires s.Valid()
  {
    var f := Fetched0(code, s);
    && f.Some? && f.value.0.opc == RET && f.value.0.ims < 4 && f.value.0.imd < 4
    && Step(code, s).Running?
    && ReturnCount(f.value.0, f.value.1).Ok?
    && Reg(s, BP) + 24 <= |s.ram| && 0 <= Word(s, Reg(s, BP) + 16) < 256
    && CanReturn(f.value.1, ReturnCount(f.value.0, f.value.1).value, Word(s, Reg(s, BP) + 16))
  }

  ghost function FollowReturn(code: seq<Byte>, e: Option<State>): (r: Option<State>)
    requires e.Some? ==> e.value.Valid()
    ensures r.Some? ==> r.value.Valid()
  {
    if e.Some? && ReturnStep(code, e.value) then Some(Next(code, e.value)) else None
  }

  /** Running a body of the given shape from `s`, if the machine runs that way. */
  ghost function Follow(code: seq<Byte>, s: State, tr: Trace): (r: Option<State>)
    requires s.Valid()
    ensures r.Some? ==> r.value.Valid()
    decreases tr, 0
  {
    match tr
    case Done => Some(s)
    case Local(rest) => if LocalStep(code, s) then Follow(code, Next(code, s), rest) else None
    case Invoke(callee, rest) =>
      var r := FollowCall(code, s, callee);
      if r.Some? then Follow(code, r.value, rest) else None
  }

  /** A call, its body, and its return. */
  ghost function FollowCall(code: seq<Byte>, s: State, callee: Trace): (r: Option<State>)
    requires s.Valid()
    ensures r.Some? ==> r.value.Valid()
    decreases callee, 1
  {
    if CallStep(code, s) then FollowReturn(code, Follow(code, Next(code, s), callee)) else None
  }

  lemma StepOfCall(code: seq<Byte>, s: State) returns (t: State)
    requires s.Valid() && CallStep(code, s) && |code| < U32
    ensures t.Valid() && t == Next(code, s)
    ensures Reg(t, SP) == Reg(s, SP) - 16 && Reg(t, BP) == Reg(s, SP) - 16 && t.sb == s.sb
    ensures Reg(t, SP) + 24 <= |t.ram| && SameFrom(s, t, Reg(s, SP))
    ensures WordU(t, Reg(t, BP)) == Reg(s, BP) && WordU(t, Reg(t, BP) + 8) == Fetch(code, Reg(s, IP)).next
  {
    hide Reg, SetReg, Put, GetU, Get, Splice, Fetch, PlaceA, Execute2, Return, Pop, Push, Write, DropWords, Taken;
    hide EnterCall;
    var i, next := Fetch(code, Reg(s, IP)).instr, Fetch(code, Reg(s, IP)).next;
    t := Step(code, s).state;
    FetchNext(code, Reg(s, IP));
    SetRegFacts(s, IP, next);
    var s' := SetReg(s, IP, next);
    EnterCallFrame(s');
    var u := EnterCall(s').value;
    var d := Read(u, PlaceA(s', i).value, ModeB(i)).value;
    SetRegFacts(u, IP, (Reg(s, IP) + d) % U64);
  }

  lemma StepOfReturn(code: seq<Byte>, e: State) returns (t: State, k: nat)
    requires e.Valid() && ReturnStep(code, e) && |code| < U32
    ensures t.Valid() && t == Next(code, e) && k < 256
    ensures var bp, n := Reg(e, BP), Word(e, Reg(e, BP) + 16);
      var to := bp + 24 + 8 * n - 8 * k;
      && Reg(t, BP) == WordU(e, bp) && Reg(t, IP) == WordU(e, bp + 8) && Reg(t, SP) == to - 8 >= 0
      && to + 8 * k <= |t.ram| && t.sb == e.sb && t.sb < to - 8
      && Word(t, to - 8) == k
      && Reg(e, SP) + 8 * k <= |e.ram| && t.ram[to..to + 8 * k] == e.ram[Reg(e, SP)..Reg(e, SP) + 8 * k]
      && SameFrom(e, t, to + 8 * k)
  {
    hide Reg, SetReg, Put, GetU, Get, Splice, Fetch, PlaceA, Execute2, Pop, Push, Write, DropWords, Taken, EnterCall;
    hide Return;
    var i, next := Fetch(code, Reg(e, IP)).instr, Fetch(code, Reg(e, IP)).next;
    FetchNext(code, Reg(e, IP));
    SetRegFacts(e, IP, next);
    var e' := SetReg(e, IP, next);
    k := ReturnCount(i, e').value;
    ReturnRestores(e', k, Word(e, Reg(e, BP) + 16));
    t := Next(code, e);
    assert Execute(i, Reg(e, IP), e') == Return(e', k);
  }

  /**
   The calling convention, from `s` before the call to `t` behind the return that `e` executes:
   control is behind the call, bp is the caller's again, arguments and count are gone, the body's k
   results and k itself are on the stack, and the rest of the stack is as it was.
   */
  ghost predicate Honoured(code: seq<Byte>, s: State, e: State, t: State, k: nat)
    requires s.Valid() && e.Valid() && t.Valid()
  {
    && Reg(s, SP) + 8 <= |s.ram| && ArgCount(s) >= 0
    && var base := Reg(s, SP) + 8 + 8 * ArgCount(s);
    && 8 * k + 8 <= base <= |t.ram| && Reg(e, SP) + 8 * k <= |e.ram|
    && Fetch(code, Reg(s, IP)).Fetched? && Reg(t, IP) == Fetch(code, Reg(s, IP)).next
    && Reg(t, BP) == Reg(s, BP)
    && Reg(t, SP) == base - 8 * k - 8
    && Word(t, base - 8 * k - 8) == k
    && t.ram[base - 8 * k..base] == e.ram[Reg(e, SP)..Reg(e, SP) + 8 * k]
    && SameFrom(s, t, base)
  }

  lemma CallStepBounds(code: seq<Byte>, s: State)
    requires s.Valid() && CallStep(code, s)
    ensures Reg(s, SP) + 8 <= |s.ram| && 0 <= ArgCount(s) && s.sb + 16 < Reg(s, SP)
    ensures Reg(s, SP) + 8 + 8 * ArgCount(s) <= Reg(s, BP) <= |s.ram|
    ensures Fetch(code, Reg(s, IP)).Fetched?
  {
    hide Reg, SetReg, Get, Fetch, Step;
  }

  /** At the end of a body that keeps its frame, the frame is as the call has left it. */
  lemma FrameKept(code: seq<Byte>, s: State, c: State, e: State)
    requires s.Valid() && e.Valid() && |code| < U32 && CallStep(code, s) && c == Next(code, s)
    requires Reg(e, BP) == Reg(c, BP) && SameFrom(c, e, Reg(c, BP)) && e.sb == c.sb
    ensures Reg(s, SP) + 8 <= |s.ram| == |e.ram| && Reg(e, BP) == Reg(s, SP) - 16 && e.sb == s.sb
    ensures Fetch(code, Reg(s, IP)).Fetched?
    ensures WordU(e, Reg(e, BP)) == Reg(s, BP) && WordU(e, Reg(e, BP) + 8) == Fetch(code, Reg(s, IP)).next
    ensures Word(e, Reg(e, BP) + 16) == ArgCount(s) >= 0 && SameFrom(s, e, Reg(s, SP))
    ensures Reg(s, SP) + 8 + 8 * ArgCount(s) <= Reg(s, BP) <= |s.ram|
  {
    hide Reg, SetReg, Put, GetU, Get, Splice, Fetch, Step, Next, CallStep, WordU;
    var c' := StepOfCall(code, s);
    CallStepBounds(code, s);
    var sp := Reg(s, SP);
    SameFromWord(c, e, sp - 16, sp - 16);
    SameFromWord(c, e, sp - 16, sp - 8);
    SameFromWord(c, e, sp - 16, sp);
    SameFromWord(s, c, sp, sp);
    SameFromOn(s, c, e, sp, sp - 16);
  }

  lemma CallAndReturn(code: seq<Byte>, s: State, c: State, e: State) returns (t: State, k: nat)
    requires s.Valid() && e.Valid() && |code| < U32
    requires CallStep(code, s) && c == Next(code, s) && ReturnStep(code, e)
    requires Reg(e, BP) == Reg(c, BP) && SameFrom(c, e, Reg(c, BP)) && e.sb == c.sb
    ensures t.Valid() && t == Next(code, e) && Honoured(code, s, e, t, k) && InFrame(t) && t.sb == s.sb
  {
    hide Reg, SetReg, Get, Fetch, Step, Next, ReturnStep, CallStep, Word, WordU, ArgCount, SameFrom;
    FrameKept(code, s, c, e);
    t, k := StepOfReturn(code, e);
    SameLength(e, t);
    var base := Reg(s, SP) + 8 + 8 * ArgCount(s);
    SameFromOn(s, e, t, Reg(s, SP), base);
  }

  /** What FollowCall says about the states on the way. */
  lemma CallParts(code: seq<Byte>, s: State, callee: Trace)
    requires s.Valid() && FollowCall(code, s, callee).Some?
    ensures CallStep(code, s) && Follow(code, Next(code, s), callee).Some?
    ensures var e := Follow(code, Next(code, s), callee).value;
      ReturnStep(code, e) && FollowCall(code, s, callee) == Some(Next(code, e))
  {
    hide CallStep, ReturnStep, Next, Follow;
  }

  lemma LocalStepKeeps(code: seq<Byte>, s: State)
    requires s.Valid() && LocalStep(code, s)
    ensures var t := Next(code, s);
      Reg(t, BP) == Reg(s, BP) && InFrame(t) && SameFrom(s, t, Reg(s, BP)) && t.sb == s.sb
  {
    hide Reg, Fetch, Execute;
  }

  /** A body that runs well nested keeps its caller's frame pointer, and every byte from its own bp on. */
  lemma {:induction false} BodyKeepsFrame(code: seq<Byte>, s: State, tr: Trace)
    requires s.Valid() && InFrame(s) && |code| < U32 && Follow(code, s, tr).Some?
    ensures var t := Follow(code, s, tr).value;
      Reg(t, BP) == Reg(s, BP) && InFrame(t) && SameFrom(s, t, Reg(s, BP)) && t.sb == s.sb
    decreases tr, 0
  {
    hide Reg, CallStep, ReturnStep, Step, Get;
    match tr {
      case Done =>
      case Local(rest) =>
        LocalStepKeeps(code, s);
        BodyKeepsFrame(code, Next(code, s), rest);
      case Invoke(callee, rest) =>
        CallParts(code, s, callee);
        CallStepBounds(code, s);
        var t, k := CallProtocol(code, s, callee);
        BodyKeepsFrame(code, t, rest);
    }
  }

  /** Every well-nested call, whatever its body and the calls inside it do, honours the convention. */
  lemma {:induction false} CallProtocol(code: seq<Byte>, s: State, callee: Trace) returns (t: State, k: nat)
    requires s.Valid() && |code| < U32 && FollowCall(code, s, callee).Some?
    ensures t.Valid() && FollowCall(code, s, callee) == Some(t) && Follow(code, Next(code, s), callee).Some?
    ensures Honoured(code, s, Follow(code, Next(code, s), callee).value, t, k) && InFrame(t) && t.sb == s.sb
    decreases callee, 1
  {
    CallParts(code, s, callee);
    hide Reg, FollowCall, CallStep, ReturnStep, Step, Follow, Get, Honoured;
    var c := StepOfCall(code, s);
    BodyKeepsFrame(code, c, callee);
    var e := Follow(code, c, callee).value;
    t, k := CallAndReturn(code, s, c, e);
  }

  lemma StartsInFrame(s: State)
    requires s.Valid() && Reg(s, SP) == Reg(s, BP) && Reg(s, SP) + 24 <= |s.ram|
    ensures InFrame(s)
  {
  }

  /** Anywhere in a body, the count is at bp + 16 and the last argument at bp + 24. */
  lemma ArgumentsInBody(code: seq<Byte>, s: State, tr: Trace)
    requires s.Valid() && |code| < U32 && CallStep(code, s) && Follow(code, Next(code, s), tr).Some?
    ensures var t, bp := Follow(code, Next(code, s), tr).value, Reg(s, SP) - 16;
      && Reg(t, BP) == bp >= 0 && bp + 24 <= |t.ram| && Word(t, bp + 16) == ArgCount(s)
      && (ArgCount(s) > 0 ==> bp + 32 <= |t.ram| && Word(t, bp + 24) == Word(s, Reg(s, SP) + 8))
  {
    hide Step, Get, Follow, Reg, CallStep, Next;
    CallStepBounds(code, s);
    var c := StepOfCall(code, s);
    StartsInFrame(c);
    BodyKeepsFrame(code, c, tr);
    var t, sp := Follow(code, c, tr).value, Reg(s, SP);
    SameFromWord(s, c, sp, sp);
    SameFromWord(c, t, sp - 16, sp);
    if ArgCount(s) > 0 {
      SameFromWord(s, c, sp, sp + 8);
      SameFromWord(c, t, sp - 16, sp + 8);
    }
  }
}
