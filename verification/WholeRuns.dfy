/** From the text of a program to the end of its run: assembling, starting and running it on the machine. */
module WholeRuns {
  import opened Basics
  import opened Bytes
  import opened Instructions
  import opened Assembler
  import opened Machine
  import opened Linking
  import opened Programs
  import opened Startup
  import opened VmObject

  /** The output is of less than 2^31 bytes. */
  predicate Short(st: Source, linked: seq<Instruction>)
    requires AllWellFormed(linked)
  {
    HEADER + |st.constants| + |EncodeAll(linked)| < 0x8000_0000
  }

  /** A started machine is at the first instruction, with the heap as it was. */
  ghost predicate StartsAt(s: State, a: AsmInput, t: State)
    requires s.Valid()
  {
    s.Leads(t) && !t.halted && Reg(t, IP) == a.db && Reg(t, SP) == Reg(t, BP) == |t.ram| - 24
  }

  /** The machine has ended like the symbolic program: still running, stopped, or with the same fault. */
  ghost predicate EndsLike(sym: SymStatus, goes: bool, r: Result<()>, now: State) {
    match sym
    case At(u, _) => goes && r == Ok(()) && now == u
    case SymStopped(u) => !goes && r == Ok(()) && now == u
    case SymFailed(f) => !goes && r == Bad(f)
    case Wild => true
  }

  lemma HeaderIsDb(code: seq<Byte>, db: nat, entry: nat)
    requires Tells(code, db, entry)
    ensures GetU(code[8..12]) == db
  {
  }

  lemma RunsFrom(a: AsmInput, code: seq<Byte>, t: State, n: nat)
    requires AllWellFormed(a.instrs) && Resolved(a) && |code| >= HEADER && RunsLike(a, code)
    requires t.Valid() && !t.halted && Reg(t, IP) == GetU(code[8..12])
    ensures Shaped(a.instrs) && Matches(a, SymRun(a, t, 0, n), Machine.Run(code, t, n))
  {
  }

  /**
   Assembles a text and runs it for at most `n` turns on a machine that is at hand. For an accepted text with
   references in last place, to labels that an instruction follows, and less than 2^31 bytes of code, the machine
   ends like the program by instruction index from its first instruction on.
   */
  method AssembleAndRun(lines: seq<Line>, vm: Vm, n: nat) returns (ok: bool, goes: bool, r: Result<()>)
    requires ValidLines(lines) && vm.Valid() && !vm.halted && vm.sb + 24 < vm.ram.Length
    modifies vm`halted, vm.regs, vm.ram, vm.heap
    ensures vm.Valid()
    ensures ok <==> AfterAll(lines).Some? && AllDefined(AfterAll(lines).value.patches, AfterAll(lines).value.symbols)
    ensures !ok ==> vm.Value() == old(vm.Value())
    ensures ok ==> AllWellFormed(AfterAll(lines).value.instrs) && AllWellFormed(Linked(InputOf(AfterAll(lines).value)))
    ensures ok && GoodLines(lines) && NamesResolved(AfterAll(lines).value) &&
            Short(AfterAll(lines).value, Linked(InputOf(AfterAll(lines).value))) ==>
              var a := InputOf(AfterAll(lines).value);
              Resolved(a) && exists t: State ::
                StartsAt(old(vm.Value()), a, t) && EndsLike(SymRun(a, t, 0, n), goes, r, vm.Value())
  {
    hide GoodLines, NamesResolved, Resolved, RunsLike, Linked, EncodeAll, Header, WellFormed, AllDefined, SymRun;
    hide Machine.Run, Booted, Reg, GetU;
    var code;
    ok, code := Assemble(lines);
    goes, r := false, Ok(());
    if !ok {
      return;
    }
    ghost var s := vm.Value();
    ghost var st := AfterAll(lines).value;
    r := vm.Start(code.data);
    if |code.data| < 0x8000_0000 {
      ghost var t := BootExact(s, code.data);
      ghost var a := InputOf(st);
      if GoodLines(lines) && NamesResolved(st) {
        assert StartsAt(s, a, t) by {
          HeaderIsDb(code.data, a.db, a.db + st.main);
        }
        RunsFrom(a, code.data, t, n);
      }
    }
    if r.Bad? {
      return;
    }
    goes, r := vm.RunLoop(code.data, n);
  }
}
