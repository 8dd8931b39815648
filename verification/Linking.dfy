/**
 What linking is for: a symbolic machine whose program counter is an instruction index and whose
 branches name their target, and the proof that the linked bytes run exactly like it.
 */
module Linking {
  import opened Basics
  import Arithmetic
  import opened Bytes
  import opened Instructions
  import opened Assembler
  import opened Machine

  // ---------------------------------------------------------------------------------------------
  // Displacements
  // ---------------------------------------------------------------------------------------------

  /** The only reference of the instruction at its position. */
  ghost predicate OnlyPatch(patches: seq<Patch>, k: nat) {
    k < |patches| && forall j :: 0 <= j < |patches| && j != k ==> patches[j].pos != patches[k].pos
  }

  /** The address that the pass has for a name among the first `n` instructions; 0 when it has none. */
  function Reach(a: AsmInput, name: string, n: nat): nat
    requires Shaped(a.instrs) && n <= |a.instrs|
  {
    var t := TargetOf(a.symbols, name);
    if t.Some? && t.value < n then Address(a.instrs, a.db, t.value) else 0
  }

  /** The addresses of all the notes on instruction `p`. */
  function ReachSum(a: AsmInput, patches: seq<Patch>, p: nat, n: nat): nat
    requires Shaped(a.instrs) && n <= |a.instrs|
  {
    if patches == [] then
      0
    else
      var last := patches[|patches| - 1];
      ReachSum(a, patches[..|patches| - 1], p, n) + if last.pos == p then Reach(a, last.name, n) else 0
  }

  lemma CountEmpty(p: nat)
    ensures Count([], p) == 0
  {
  }

  lemma CountPush(s: seq<nat>, x: nat, p: nat)
    ensures Count(s + [x], p) == Count(s, p) + if x == p then 1 else 0
  {
    assert (s + [x])[..|s|] == s;
  }

  /** The same for one note. */
  lemma ReachStep(a: AsmInput, name: string, i: nat)
    requires Shaped(a.instrs) && i < |a.instrs|
    ensures Reach(a, name, i + 1) ==
            Reach(a, name, i) + if TargetOf(a.symbols, name) == Some(i) then Address(a.instrs, a.db, i) else 0
  {
    hide Address;
  }

  /** What the pass adds when it comes to instruction `i`. */
  lemma {:induction false} SumStep(a: AsmInput, patches: seq<Patch>, p: nat, i: nat)
    requires Shaped(a.instrs) && i < |a.instrs|
    ensures ReachSum(a, patches, p, i + 1) ==
            ReachSum(a, patches, p, i) + Address(a.instrs, a.db, i) * Count(RefsTo(patches, a.symbols, i), p)
    decreases |patches|
  {
    hide Address, Reach, TargetOf, Count;
    if patches == [] {
      CountEmpty(p);
    } else {
      var m := |patches| - 1;
      var before := RefsTo(patches[..m], a.symbols, i);
      SumStep(a, patches[..m], p, i);
      CountPush(before, patches[m].pos, p);
      ReachStep(a, patches[m].name, i);
      Arithmetic.MulOneMore(Address(a.instrs, a.db, i), Count(before, p));
    }
  }

  lemma {:induction false} SumStart(a: AsmInput, patches: seq<Patch>, p: nat)
    requires Shaped(a.instrs)
    ensures ReachSum(a, patches, p, 0) == 0
    decreases |patches|
  {
    if patches != [] {
      SumStart(a, patches[..|patches| - 1], p);
    }
  }

  /** The pass goes by labels, and adds to every instruction the addresses of its own notes. */
  lemma {:induction false} AddedIsSum(a: AsmInput, p: nat, i: nat)
    requires Shaped(a.instrs) && i <= |a.instrs|
    ensures Added(a, p, i) == ReachSum(a, a.patches, p, i)
    decreases i
  {
    if i > 0 {
      AddedIsSum(a, p, i - 1);
      SumStep(a, a.patches, p, i - 1);
    } else {
      SumStart(a, a.patches, p);
    }
  }

  lemma {:induction false} SumNone(a: AsmInput, patches: seq<Patch>, p: nat, n: nat)
    requires Shaped(a.instrs) && n <= |a.instrs| && !Patched(patches, p)
    ensures ReachSum(a, patches, p, n) == 0
    decreases |patches|
  {
    if patches != [] {
      var m := |patches| - 1;
      assert patches[m].pos != p;
      SumNone(a, patches[..m], p, n);
    }
  }

  lemma {:induction false} SumOnly(a: AsmInput, patches: seq<Patch>, k: nat, n: nat)
    requires Shaped(a.instrs) && n <= |a.instrs| && OnlyPatch(patches, k)
    ensures ReachSum(a, patches, patches[k].pos, n) == Reach(a, patches[k].name, n)
    decreases |patches|
  {
    var m := |patches| - 1;
    if k == m {
      SumNone(a, patches[..m], patches[k].pos, n);
    } else {
      assert patches[m].pos != patches[k].pos && patches[..m][k] == patches[k];
      SumOnly(a, patches[..m], k, n);
    }
  }

  /** What the linker makes of an immediate, whatever notes there are on it. */
  lemma LinkedSum(a: AsmInput, p: nat)
    requires Shaped(a.instrs) && p < |a.instrs|
    ensures Linked(a)[p] == a.instrs[p].(ii := Linked(a)[p].ii)
    ensures Linked(a)[p].ii == a.instrs[p].ii + ReachSum(a, a.patches, p, |a.instrs|)
                               - if Patched(a.patches, p) then Address(a.instrs, a.db, p) else 0
  {
    AddedIsSum(a, p, |a.instrs|);
  }

  /** An instruction without a reference is linked as it is. */
  lemma UnpatchedUnchanged(a: AsmInput, p: nat)
    requires Shaped(a.instrs) && p < |a.instrs| && !Patched(a.patches, p)
    ensures Linked(a)[p] == a.instrs[p]
  {
    LinkedSum(a, p);
    SumNone(a, a.patches, p, |a.instrs|);
  }

  /** What the linker makes of one reference, whatever its name turns out to be. */
  lemma LinkedImmediate(a: AsmInput, k: nat)
    requires Shaped(a.instrs) && OnlyPatch(a.patches, k) && a.patches[k].pos < |a.instrs|
    ensures var p := a.patches[k].pos;
      Linked(a)[p].ii == a.instrs[p].ii - Address(a.instrs, a.db, p) + Reach(a, a.patches[k].name, |a.instrs|)
  {
    LinkedSum(a, a.patches[k].pos);
    SumOnly(a, a.patches, k, |a.instrs|);
    assert Patched(a.patches, a.patches[k].pos);
  }

  /**
   A reference to a label leads from its instruction to the label exactly when an instruction
   follows the label: the pass never visits a label behind the last instruction.
   */
  lemma LinkExact(a: AsmInput, k: nat)
    requires Shaped(a.instrs) && OnlyPatch(a.patches, k) && a.patches[k].pos < |a.instrs|
    requires a.instrs[a.patches[k].pos].ii == 0 && 0 < a.db
    requires TargetOf(a.symbols, a.patches[k].name).Some? && TargetOf(a.symbols, a.patches[k].name).value <= |a.instrs|
    ensures var p, t := a.patches[k].pos, TargetOf(a.symbols, a.patches[k].name).value;
      Address(a.instrs, a.db, p) + Linked(a)[p].ii == Address(a.instrs, a.db, t) <==> t < |a.instrs|
  {
    LinkedImmediate(a, k);
  }

  /** A reference to a name that became a variable or constant only later leads to address 0. */
  lemma LateSymbolLeadsNowhere(a: AsmInput, k: nat)
    requires Shaped(a.instrs) && OnlyPatch(a.patches, k) && a.patches[k].pos < |a.instrs|
    requires a.instrs[a.patches[k].pos].ii == 0 && TargetOf(a.symbols, a.patches[k].name).None?
    ensures Address(a.instrs, a.db, a.patches[k].pos) + Linked(a)[a.patches[k].pos].ii == 0
  {
    LinkedImmediate(a, k);
  }

  // ---------------------------------------------------------------------------------------------
  // The symbolic machine
  // ---------------------------------------------------------------------------------------------

  /** Every reference is the only one of its instruction and names a label with an instruction behind it. */
  ghost predicate Resolved(a: AsmInput) {
    forall k :: 0 <= k < |a.patches| ==>
      && OnlyPatch(a.patches, k)
      && a.patches[k].pos < |a.instrs| && a.instrs[a.patches[k].pos].ii == 0
      && TargetOf(a.symbols, a.patches[k].name).Some?
      && TargetOf(a.symbols, a.patches[k].name).value < |a.instrs|
  }

  /** The label an instruction refers to. */
  ghost function LabelOf(a: AsmInput, pc: nat): (r: Option<nat>)
    requires Resolved(a)
    ensures r.Some? ==> r.value < |a.instrs|
  {
    if k :| 0 <= k < |a.patches| && a.patches[k].pos == pc then TargetOf(a.symbols, a.patches[k].name) else None
  }

  predicate IsLabelBranch(i: Instruction) {
    i.osz == 2 && i.rmd && !i.iam && IsBranch(i.opc)
  }

  /** Wild: control went to an address that is not the start of an instruction. */
  datatype SymStatus = At(state: State, pc: nat) | SymStopped(state: State) | SymFailed(fault: Fault) | Wild

  /** The instruction that starts at address `x`, or the end of the program. */
  ghost function IndexOf(a: AsmInput, x: nat): (r: Option<nat>)
    requires Shaped(a.instrs)
    ensures r.Some? ==> r.value <= |a.instrs|
  {
    if k :| 0 <= k <= |a.instrs| && Address(a.instrs, a.db, k) == x then Some(k) else None
  }

  ghost function Land(a: AsmInput, s: State): SymStatus
    requires Shaped(a.instrs) && s.Valid()
  {
    if s.halted then
      SymStopped(s)
    else
      match IndexOf(a, Reg(s, IP))
      case None => Wild
      case Some(pc) => At(s, pc)
  }

  /** Moving on to instruction `pc`. */
  ghost function Goto(a: AsmInput, s: State, pc: nat): SymStatus
    requires Shaped(a.instrs) && s.Valid() && pc <= |a.instrs|
  {
    At(SetReg(s, IP, Address(a.instrs, a.db, pc)), pc)
  }

  /** The instruction with its label, if it has one, as a distance. */
  ghost function WithLabel(a: AsmInput, pc: nat): Instruction
    requires Shaped(a.instrs) && Resolved(a) && pc < |a.instrs|
  {
    var dest := LabelOf(a, pc);
    if dest.Some? then
      a.instrs[pc].(ii := Address(a.instrs, a.db, dest.value) - Address(a.instrs, a.db, pc))
    else
      a.instrs[pc]
  }

  /**
   One step by instruction index. A branch to a label goes to that label's instruction; every other
   instruction does what VM_execute does, with a label standing for the distance to it.
   */
  ghost function SymStep(a: AsmInput, s: State, pc: nat): SymStatus
    requires AllWellFormed(a.instrs) && Resolved(a) && s.Valid() && !s.halted && pc <= |a.instrs|
    ensures var r := SymStep(a, s, pc); r.At? ==> r.state.Valid() && !r.state.halted && r.pc <= |a.instrs|
  {
    if pc == |a.instrs| then
      SymStopped(s)
    else
      var i, dest := a.instrs[pc], LabelOf(a, pc);
      var next := SetReg(s, IP, Address(a.instrs, a.db, pc + 1));
      if dest.Some? && IsLabelBranch(i) then
        if i.opc == CALL then
          match EnterCall(next)
          case Bad(f) => SymFailed(f)
          case Ok(t) => Goto(a, t, dest.value)
        else
          Goto(a, s, if Taken(i.opc, Reg(s, FLG)) then dest.value else pc + 1)
      else
        match Execute(Normal(WithLabel(a, pc)), Address(a.instrs, a.db, pc), next)
        case Bad(f) => SymFailed(f)
        case Ok(t) => Land(a, t)
  }

  // ---------------------------------------------------------------------------------------------
  // The simulation
  // ---------------------------------------------------------------------------------------------

  lemma LabelUnique(a: AsmInput, k: nat)
    requires Resolved(a) && k < |a.patches|
    ensures LabelOf(a, a.patches[k].pos) == TargetOf(a.symbols, a.patches[k].name)
  {
    var p := a.patches[k].pos;
    assert OnlyPatch(a.patches, k);
    assert forall j :: 0 <= j < |a.patches| && a.patches[j].pos == p ==> j == k;
  }

  /** The linker replaces every label by the distance to it. */
  lemma LinkedIsWithLabel(a: AsmInput, pc: nat)
    requires Shaped(a.instrs) && Resolved(a) && pc < |a.instrs|
    ensures Linked(a)[pc] == WithLabel(a, pc)
  {
    if Patched(a.patches, pc) {
      var k :| 0 <= k < |a.patches| && a.patches[k].pos == pc;
      assert OnlyPatch(a.patches, k);
      LabelUnique(a, k);
      LinkedImmediate(a, k);
    } else {
      UnpatchedUnchanged(a, pc);
    }
  }

  /** The code the linker writes, behind header and constants. */
  ghost predicate LinkedCode(a: AsmInput, head: seq<Byte>, code: seq<Byte>) {
    && AllWellFormed(a.instrs) && Resolved(a) && |head| == a.db
    && AllWellFormed(Linked(a)) && AllFit(Linked(a))
    && code == head + EncodeAll(Linked(a)) && |code| < U32
  }

  lemma AddressBound(a: AsmInput, head: seq<Byte>, code: seq<Byte>, k: nat)
    requires LinkedCode(a, head, code) && k <= |a.instrs|
    ensures Address(a.instrs, a.db, k) == Address(Linked(a), |head|, k) <= |code| < U32
    ensures k < |a.instrs| <==> Address(a.instrs, a.db, k) < |code|
  {
    assert AllWellFormed(a.instrs) && Shaped(a.instrs) && Shaped(Linked(a));
    hide AllWellFormed, WellFormed, Linked, EncodeAll, Resolved, AllFit, Address;
    LinkedWellFormed(a);
    AddressSameShape(a.instrs, Linked(a), a.db, k);
    CodeLength(head, Linked(a));
    AddressGrows(Linked(a), |head|, k, |a.instrs|);
  }

  /** At the address of instruction `pc`, the machine decodes that instruction with its label as a distance. */
  lemma FetchLinked(a: AsmInput, head: seq<Byte>, code: seq<Byte>, pc: nat)
    requires LinkedCode(a, head, code) && pc < |a.instrs|
    ensures Fetch(code, Address(a.instrs, a.db, pc)) ==
            Fetched(Normal(WithLabel(a, pc)), Address(a.instrs, a.db, pc + 1))
  {
    AddressBound(a, head, code, pc);
    AddressBound(a, head, code, pc + 1);
    LinkedIsWithLabel(a, pc);
    hide WithLabel, EncodeAll, Fetch, Normal, Address;
    FetchInstruction(head, Linked(a), pc);
  }

  /** A decoded label branch carries the distance to its label, and the distance fits. */
  lemma BranchDistance(a: AsmInput, head: seq<Byte>, code: seq<Byte>, pc: nat)
    requires LinkedCode(a, head, code) && pc < |a.instrs|
    requires LabelOf(a, pc).Some? && IsLabelBranch(a.instrs[pc])
    ensures var i, j := a.instrs[pc], Normal(WithLabel(a, pc));
      && j.opc == i.opc && j.osz == 2 && j.rmd && !j.iam && j.ims < 4 && j.imd < 4
      && j.ii == Address(a.instrs, a.db, LabelOf(a, pc).value) - Address(a.instrs, a.db, pc)
      && Fits(j.ii, SizeOf(j.ims))
  {
    hide Address, EncodeAll, LabelOf, Resolved, Linked, Fits;
    LinkedIsWithLabel(a, pc);
    assert WellFormed(a.instrs[pc]);
    assert ImmediateFits(Linked(a)[pc]);
  }

  /** The byte-level status that corresponds to a symbolic one. */
  ghost predicate Matches(a: AsmInput, sym: SymStatus, r: Status)
    requires Shaped(a.instrs)
  {
    match sym
    case At(t, pc) => t.Valid() && !t.halted && r == Running(t) && pc <= |a.instrs| &&
        Reg(t, IP) == Address(a.instrs, a.db, pc)
    case SymStopped(t) => r == Stopped(t)
    case SymFailed(f) => r == Failed(f)
    case Wild => true
  }

  /** A label branch in the bytes goes where the symbolic branch goes. */
  lemma BranchSimulates(a: AsmInput, head: seq<Byte>, code: seq<Byte>, s: State, pc: nat)
    requires LinkedCode(a, head, code) && AllWellFormed(a.instrs) && Shaped(a.instrs) && Resolved(a)
    requires s.Valid() && !s.halted && pc < |a.instrs|
    requires Reg(s, IP) == Address(a.instrs, a.db, pc)
    requires LabelOf(a, pc).Some? && IsLabelBranch(a.instrs[pc])
    ensures Matches(a, SymStep(a, s, pc), Step(code, s))
  {
    hide LinkedCode, Resolved, AllWellFormed, WithLabel, Address, Fetch, Execute, EnterCall, Taken, Reg, SetReg;
    hide LabelOf, Normal;
    hide Execute2, Put, Fits;
    var i, dest := a.instrs[pc], LabelOf(a, pc).value;
    var from, to, after := Address(a.instrs, a.db, pc), Address(a.instrs, a.db, dest), Address(a.instrs, a.db, pc + 1);
    var next := SetReg(s, IP, after);
    FetchLinked(a, head, code, pc);
    AddressBound(a, head, code, pc);
    AddressBound(a, head, code, pc + 1);
    AddressBound(a, head, code, dest);
    BranchDistance(a, head, code, pc);
    var j := Normal(WithLabel(a, pc));
    assert (from + j.ii) % U64 == to;
    RegSet(s, IP, after);
    RegSet(s, IP, to);
    if i.opc == CALL {
      ExecuteCall(j, from, next);
      if EnterCall(next).Ok? {
        RegSet(EnterCall(next).value, IP, to);
      }
    } else {
      ExecuteJump(j, from, next);
      RegOther(s, IP, after, FLG);
      SetTwice(s, IP, after, to);
    }
  }

  lemma InRangeModes(a: AsmInput, pc: nat)
    requires AllWellFormed(a.instrs) && Resolved(a) && pc < |a.instrs|
    ensures Normal(WithLabel(a, pc)).ims < 4 && Normal(WithLabel(a, pc)).imd < 4
  {
    assert WellFormed(a.instrs[pc]);
    hide Resolved, LabelOf, Address;
  }

  lemma PlainSimulates(a: AsmInput, head: seq<Byte>, code: seq<Byte>, s: State, pc: nat)
    requires LinkedCode(a, head, code) && AllWellFormed(a.instrs) && Shaped(a.instrs) && Resolved(a)
    requires s.Valid() && !s.halted && pc < |a.instrs|
    requires Reg(s, IP) == Address(a.instrs, a.db, pc)
    requires !(LabelOf(a, pc).Some? && IsLabelBranch(a.instrs[pc]))
    ensures Matches(a, SymStep(a, s, pc), Step(code, s))
  {
    hide LinkedCode, Resolved, AllWellFormed, Address, Fetch, Execute, EnterCall, Taken, Reg, SetReg, LabelOf;
    FetchLinked(a, head, code, pc);
    AddressBound(a, head, code, pc);
    InRangeModes(a, pc);
    hide WithLabel, Normal;
  }

  /** One step of the bytes is one step of the symbolic program. */
  lemma StepSimulates(a: AsmInput, head: seq<Byte>, code: seq<Byte>, s: State, pc: nat)
    requires LinkedCode(a, head, code) && AllWellFormed(a.instrs) && Shaped(a.instrs) && Resolved(a)
    requires s.Valid() && !s.halted && pc <= |a.instrs|
    requires Reg(s, IP) == Address(a.instrs, a.db, pc)
    ensures Matches(a, SymStep(a, s, pc), Step(code, s))
  {
    hide LinkedCode, Resolved, AllWellFormed, Address, Fetch, Execute, EnterCall, Taken, Reg, SetReg, LabelOf;
    hide WithLabel, Normal;
    if pc == |a.instrs| {
      AddressBound(a, head, code, pc);
    } else if LabelOf(a, pc).Some? && IsLabelBranch(a.instrs[pc]) {
      BranchSimulates(a, head, code, s, pc);
    } else {
      PlainSimulates(a, head, code, s, pc);
    }
  }

  /** At most `n` steps of the symbolic program. */
  ghost function SymRun(a: AsmInput, s: State, pc: nat, n: nat): SymStatus
    requires AllWellFormed(a.instrs) && Resolved(a) && s.Valid() && !s.halted && pc <= |a.instrs|
    decreases n
  {
    if n == 0 then
      At(s, pc)
    else
      match SymStep(a, s, pc)
      case At(t, pc') => SymRun(a, t, pc', n - 1)
      case other => other
  }

  lemma {:induction false} RunSimulates(a: AsmInput, head: seq<Byte>, code: seq<Byte>, s: State, pc: nat, n: nat)
    requires LinkedCode(a, head, code) && AllWellFormed(a.instrs) && Shaped(a.instrs) && Resolved(a)
    requires s.Valid() && !s.halted && pc <= |a.instrs|
    requires Reg(s, IP) == Address(a.instrs, a.db, pc)
    ensures Matches(a, SymRun(a, s, pc, n), Run(code, s, n))
    decreases n
  {
    hide LinkedCode, Step, SymStep, Resolved, Address, Reg, AllWellFormed;
    if n > 0 {
      StepSimulates(a, head, code, s, pc);
      match SymStep(a, s, pc) {
        case At(t, pc') => RunSimulates(a, head, code, t, pc', n - 1);
        case _ =>
      }
    }
  }

  /**
   The linked bytes run like the symbolic program: for every number of steps, same registers, same
   memory, same heap and same outcome, with ip at the address of the current instruction.
   */
  lemma LinkedProgramSimulates(a: AsmInput, head: seq<Byte>, code: seq<Byte>, s: State, pc: nat, n: nat)
    requires LinkedCode(a, head, code) && s.Valid() && !s.halted && pc <= |a.instrs|
    requires Reg(s, IP) == Address(a.instrs, a.db, pc)
    ensures Matches(a, SymRun(a, s, pc, n), Run(code, s, n))
  {
    RunSimulates(a, head, code, s, pc, n);
  }

  /** An address names one instruction. */
  lemma IndexOfAddress(a: AsmInput, k: nat)
    requires AllWellFormed(a.instrs) && k <= |a.instrs|
    ensures IndexOf(a, Address(a.instrs, a.db, k)) == Some(k)
  {
    forall j | 0 <= j <= |a.instrs| && Address(a.instrs, a.db, j) == Address(a.instrs, a.db, k)
      ensures j == k
    {
      if j < k {
        AddressGrows(a.instrs, a.db, j, k);
      } else {
        AddressGrows(a.instrs, a.db, k, j);
      }
    }
  }

  lemma NoBranch(op: nat)
    ensures !Transfers(op) ==> !IsBranch(op)
  {
  }

  lemma NormalNames(a: AsmInput, pc: nat)
    requires Shaped(a.instrs) && Resolved(a) && pc < |a.instrs| && AllWellFormed(a.instrs)
    ensures var i, j := a.instrs[pc], Normal(WithLabel(a, pc));
      j.opc == i.opc && (!NamesRegister(i, IP) ==> !NamesRegister(j, IP))
  {
    assert WellFormed(a.instrs[pc]);
    hide Resolved, LabelOf, Address;
  }

  /** Anything but a jump, call or return that leaves the machine running moves on to the next instruction. */
  lemma PlainMovesOn(a: AsmInput, head: seq<Byte>, code: seq<Byte>, s: State, pc: nat)
    requires LinkedCode(a, head, code) && AllWellFormed(a.instrs) && Shaped(a.instrs) && Resolved(a)
    requires s.Valid() && !s.halted && pc < |a.instrs|
    requires !Transfers(a.instrs[pc].opc) && !NamesRegister(a.instrs[pc], IP)
    ensures var r := SymStep(a, s, pc); r.SymFailed? || r.SymStopped? || (r.At? && r.pc == pc + 1)
  {
    hide LinkedCode, Resolved, AllWellFormed, Address, Execute, Reg, SetReg, LabelOf, WithLabel, Normal;
    hide NamesRegister, Transfers, IsBranch;
    InRangeModes(a, pc);
    NormalNames(a, pc);
    NoBranch(a.instrs[pc].opc);
    AddressBound(a, head, code, pc + 1);
    var j, from, after := Normal(WithLabel(a, pc)), Address(a.instrs, a.db, pc), Address(a.instrs, a.db, pc + 1);
    var next := SetReg(s, IP, after);
    RegSet(s, IP, after);
    PlainKeepsIp(j, from, next);
    IndexOfAddress(a, pc + 1);
  }

  // ---------------------------------------------------------------------------------------------
  // From the linker to the machine
  // ---------------------------------------------------------------------------------------------

  /** Every reference sits in an immediate of the word size, and every other immediate fits its size. */
  ghost predicate Sized(a: AsmInput)
    requires AllWellFormed(a.instrs)
  {
    forall p :: 0 <= p < |a.instrs| ==>
      if Patched(a.patches, p) then a.instrs[p].rmd && !a.instrs[p].iea && a.instrs[p].ims == SZ_WORD
      else ImmediateFits(a.instrs[p])
  }

  lemma PatchResolved(a: AsmInput, k: nat)
    requires Resolved(a) && k < |a.patches|
    ensures TargetOf(a.symbols, a.patches[k].name).Some?
  {
  }

  lemma NoLabel(a: AsmInput, p: nat)
    requires Shaped(a.instrs) && Resolved(a) && p < |a.instrs| && !Patched(a.patches, p)
    ensures WithLabel(a, p) == a.instrs[p]
  {
  }

  lemma WordFits(d: int)
    requires -0x8000_0000 < d < 0x8000_0000
    ensures Fits(d, SizeOf(SZ_WORD))
  {
    assert Pow256(1) == 0x100 && Pow256(2) == 0x1_0000 && Pow256(3) == 0x100_0000;
  }

  /** In a program of less than 2^31 bytes every displacement fits its word. */
  lemma DisplacementsFit(a: AsmInput)
    requires AllWellFormed(a.instrs) && Resolved(a) && Sized(a)
    requires Address(a.instrs, a.db, |a.instrs|) < 0x8000_0000
    ensures AllWellFormed(Linked(a)) && AllFit(Linked(a))
  {
    LinkedWellFormed(a);
    hide Resolved, Linked, WellFormed, Address;
    forall p | 0 <= p < |a.instrs|
      ensures ImmediateFits(Linked(a)[p])
    {
      LinkedIsWithLabel(a, p);
      if Patched(a.patches, p) {
        var k :| 0 <= k < |a.patches| && a.patches[k].pos == p;
        LabelUnique(a, k);
        PatchResolved(a, k);
        var t := LabelOf(a, p).value;
        AddressGrows(a.instrs, a.db, p, |a.instrs|);
        AddressGrows(a.instrs, a.db, t, |a.instrs|);
        WordFits(Address(a.instrs, a.db, t) - Address(a.instrs, a.db, p));
      } else {
        NoLabel(a, p);
      }
    }
  }

  /** What Assembler_link writes is such code: its bytes run like the program by instruction index. */
  lemma LinkerOutputSimulates(a: AsmInput, main: nat, constants: seq<Byte>, code: seq<Byte>, s: State, n: nat)
    requires AllWellFormed(a.instrs) && Resolved(a) && Sized(a) && a.db == HEADER + |constants|
    requires AllWellFormed(Linked(a)) && code == Header(|code|, a.db, main) + constants + EncodeAll(Linked(a)) &&
             |code| < 0x8000_0000
    requires s.Valid() && !s.halted && main <= |a.instrs| && Reg(s, IP) == GetU(code[8..12])
    ensures Matches(a, SymRun(a, s, 0, n), Run(code, s, n))
  {
    hide Resolved, Sized, Reg, Header, EncodeAll, SymRun, Run;
    OutputTells(main, constants, Linked(a), |code|);
    var head := Header(|code|, a.db, main) + constants;
    CodeLength(head, Linked(a));
    LinkedWellFormed(a);
    AddressSameShape(a.instrs, Linked(a), a.db, |a.instrs|);
    DisplacementsFit(a);
    LinkedProgramSimulates(a, head, code, s, 0, n);
  }
}
