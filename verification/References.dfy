/**
 References to labels, from the text of a program to the place where the machine finds them: which operands
 the linker turns into the distance to their label, and which ones it does not.
 */
module References {
  import opened Basics
  import opened Bytes
  import opened Instructions
  import opened Assembler
  import opened Machine
  import opened Linking
  import opened OperandLaws
  import opened Programs

  // ---------------------------------------------------------------------------------------------
  // One instruction
  // ---------------------------------------------------------------------------------------------

  /** What the assembler makes of an instruction, with `x` added to its immediate. */
  function Shifted(opc: nat, mode: nat, ops: seq<Operand>, x: int): (i: Instruction)
    requires |ops| <= 2
  {
    var i := Build(opc, mode, ops);
    i.(ii := i.ii + x)
  }

  lemma ShiftedWellFormed(opc: nat, mode: nat, ops: seq<Operand>, x: int)
    requires opc < 64 && mode < 4 && |ops| <= 2 && AllValid(ops)
    ensures WellFormed(Shifted(opc, mode, ops, x))
  {
    BuildWellFormed(opc, mode, ops);
    hide Build;
  }

  /** A reference in last place has the immediate of its instruction for itself. */
  lemma LastReference(opc: nat, mode: nat, ops: seq<Operand>, mem: bool, x: int)
    requires 1 <= |ops| <= 2 && ops[|ops| - 1] == ImmOp(0, SZ_WORD, mem)
    ensures var l := Shifted(opc, mode, ops, x);
            l.ii == x && l.rmd && l.ims == SZ_WORD && HasImmediate(l) && l.osz == |ops| + 1 &&
            (if |ops| == 1 then l.iam == mem else l.ibm == mem)
  {
  }

  /** In front of another operand it leaves nothing but the size of a word, in the place of a register. */
  lemma FirstReference(opc: nat, mode: nat, ops: seq<Operand>, mem: bool, x: int)
    requires |ops| == 2 && ops[0] == ImmOp(0, SZ_WORD, mem)
    ensures var l := Shifted(opc, mode, ops, x); l.osz == 3 && l.ra == SZ_WORD && l.iam == mem
  {
  }

  lemma NotCongruent(x: int, d: int)
    requires d - x < U32 && x - d < U32 && x != d
    ensures x % U32 != d % U32
  {
  }

  lemma WordLost(ii: int, x: int, d: int)
    requires ii == Get(Put(x, 4)) && d - x < U32 && x - d < U32 && x != d
    ensures ii % U32 != d % U32
  {
    PutGet(Put(x, 4));
    hide Get;
    SameWord(ii, x);
    hide Put;
    NotCongruent(x, d);
  }

  /** A decoded word is found in its place, and nothing else is. */
  lemma WordShown(j: Instruction, k: nat, mem: bool, x: int, d: int)
    requires j.rmd && (if k == 0 then j.osz == 2 && j.iam == mem else j.osz == 3 && j.ibm == mem)
    requires j.ii == Get(Put(x, 4)) && Fits(d, 4) && d - x < U32 && x - d < U32
    ensures Shows(j, k, d, mem) <==> x == d
  {
    hide Get, Put, Fits, RegPlace;
    if x == d {
      GetPut(d, 4);
    } else {
      WordLost(j.ii, x, d);
      hide Shows;
      OtherNotShown(j, k, d, mem);
    }
  }

  /**
   The pass adds `x` to the immediate of the instruction. The machine finds the distance `d` in the place of
   the reference exactly when the reference is the last operand and `x` is that distance.
   */
  lemma ReferenceShown(pre: seq<Byte>, post: seq<Byte>, opc: nat, mode: nat, ops: seq<Operand>, k: nat, mem: bool,
                       x: int, d: int)
    requires opc < 64 && mode < 4 && |ops| <= 2 && AllValid(ops)
    requires k < |ops| && ops[k] == ImmOp(0, SZ_WORD, mem)
    requires Fits(d, SizeOf(SZ_WORD)) && d - x < U32 && x - d < U32
    ensures WellFormed(Shifted(opc, mode, ops, x))
    ensures var f := Fetch(pre + Encode(Shifted(opc, mode, ops, x)) + post, |pre|);
            f.Fetched? && (Shows(f.instr, k, d, mem) <==> k == |ops| - 1 && x == d)
  {
    ShiftedWellFormed(opc, mode, ops, x);
    var l := Shifted(opc, mode, ops, x);
    FetchEncoded(pre, l, post);
    var j := Fetch(pre + Encode(l) + post, |pre|).instr;
    hide Build, Fetch, Encode, Shows, Shifted, Fits, Put, Get;
    if k == |ops| - 1 {
      LastReference(opc, mode, ops, mem, x);
      WordShown(j, k, mem, x, d);
    } else {
      FirstReference(opc, mode, ops, mem, x);
      NotShown(j, d, mem);
    }
  }

  // ---------------------------------------------------------------------------------------------
  // One statement of a program
  // ---------------------------------------------------------------------------------------------

  /** Later statements add to what the assembler has collected, with notes on later instructions only. */
  ghost predicate Extends(early: Source, late: Source) {
    && early.instrs <= late.instrs && early.patches <= late.patches
    && forall k :: |early.patches| <= k < |late.patches| ==> |early.instrs| <= late.patches[k].pos
  }

  /** Notes are on instructions, and labels on instructions or the end. */
  ghost predicate Bounded(st: Source) {
    && (forall k :: 0 <= k < |st.patches| ==> st.patches[k].pos < |st.instrs|)
    && (forall n :: n in st.symbols && st.symbols[n].tag == Label ==> st.symbols[n].id <= |st.instrs|)
  }

  lemma {:induction false} NotesOn(ms: seq<Mention>, pos: nat, symbols: map<string, Symbol>)
    ensures forall k :: 0 <= k < |Notes(ms, pos, symbols)| ==> Notes(ms, pos, symbols)[k].pos == pos
  {
    if ms != [] {
      NotesOn(ms[..|ms| - 1], pos, symbols);
    }
  }

  lemma StepExtends(st: Source, l: Line)
    requires ValidLine(l) && Bounded(st) && After(st, l).Some?
    ensures Bounded(After(st, l).value) && Extends(st, After(st, l).value)
  {
    hide Build, Operands, Notes;
    if l.InstrLine? {
      NotesOn(l.mentions, |st.instrs|, st.symbols);
    }
  }

  lemma NothingExtends()
    ensures Bounded(NOTHING) && Extends(NOTHING, NOTHING)
  {
  }

  lemma ExtendsItself(st: Source)
    ensures Extends(st, st)
  {
  }

  lemma ExtendsOn(a: Source, b: Source, c: Source)
    requires Extends(a, b) && Extends(b, c)
    ensures Extends(a, c)
  {
    forall k | |a.patches| <= k < |c.patches| ensures |a.instrs| <= c.patches[k].pos {
      if k < |b.patches| {
        assert c.patches[k] == b.patches[k];
      }
    }
  }

  lemma {:induction false} RunExtends(lines: seq<Line>, j: nat)
    requires ValidLines(lines) && AfterAll(lines).Some? && j <= |lines|
    ensures AfterAll(lines[..j]).Some? && Bounded(AfterAll(lines[..j]).value) && Bounded(AfterAll(lines).value)
    ensures Extends(AfterAll(lines[..j]).value, AfterAll(lines).value)
    decreases |lines|
  {
    hide After, Bounded, Extends;
    if lines == [] {
      assert lines[..j] == lines;
      NothingExtends();
    } else {
      var before := lines[..|lines| - 1];
      RunExtends(before, if j == |lines| then j - 1 else j);
      StepExtends(AfterAll(before).value, lines[|lines| - 1]);
      if j == |lines| {
        assert lines[..j] == lines;
        ExtendsItself(AfterAll(lines).value);
      } else {
        assert before[..j] == lines[..j];
        ExtendsOn(AfterAll(lines[..j]).value, AfterAll(before).value, AfterAll(lines).value);
      }
    }
  }

  lemma {:induction false} SumConcat(a: AsmInput, s: seq<Patch>, t: seq<Patch>, p: nat)
    requires Shaped(a.instrs)
    ensures ReachSum(a, s + t, p, |a.instrs|) == ReachSum(a, s, p, |a.instrs|) + ReachSum(a, t, p, |a.instrs|)
    decreases |t|
  {
    if t == [] {
      assert s + t == s;
    } else {
      var u := t[..|t| - 1];
      assert (s + t)[..|s + t| - 1] == s + u;
      SumConcat(a, s, u, p);
    }
  }

  /** A reference to a label that an instruction follows. */
  predicate Leads(a: AsmInput, m: Mention, symbols: map<string, Symbol>) {
    IsReference(m, symbols) && var t := TargetOf(a.symbols, m.name); t.Some? && t.value < |a.instrs|
  }

  /** The address that a mention adds to its instruction. */
  function AddressFor(a: AsmInput, m: Mention, symbols: map<string, Symbol>): nat
    requires Shaped(a.instrs)
  {
    if Leads(a, m, symbols) then Address(a.instrs, a.db, TargetOf(a.symbols, m.name).value) else 0
  }

  function AddressesFor(a: AsmInput, ms: seq<Mention>, symbols: map<string, Symbol>): nat
    requires Shaped(a.instrs)
  {
    if ms == [] then 0
    else AddressesFor(a, ms[..|ms| - 1], symbols) + AddressFor(a, ms[|ms| - 1], symbols)
  }

  lemma NoteSum(a: AsmInput, m: Mention, p: nat, symbols: map<string, Symbol>)
    requires Shaped(a.instrs)
    ensures ReachSum(a, NotesFor(m, p, symbols), p, |a.instrs|) == AddressFor(a, m, symbols)
  {
    hide Address;
    if IsReference(m, symbols) {
      var one := [Patch(p, m.name)];
      assert one[..0] == [];
      assert ReachSum(a, one, p, |a.instrs|) == Reach(a, m.name, |a.instrs|);
    }
  }

  lemma {:induction false} NotesSum(a: AsmInput, ms: seq<Mention>, p: nat, symbols: map<string, Symbol>)
    requires Shaped(a.instrs)
    ensures ReachSum(a, Notes(ms, p, symbols), p, |a.instrs|) == AddressesFor(a, ms, symbols)
    decreases |ms|
  {
    if ms != [] {
      var before, m := ms[..|ms| - 1], ms[|ms| - 1];
      NotesSum(a, before, p, symbols);
      NoteSum(a, m, p, symbols);
      SumConcat(a, Notes(before, p, symbols), NotesFor(m, p, symbols), p);
    }
  }

  /** Of all notes, only those of the statement itself are on its instruction. */
  lemma NotesHere(a: AsmInput, before: seq<Patch>, notes: seq<Patch>, rest: seq<Patch>, p: nat)
    requires Shaped(a.instrs)
    requires forall k :: 0 <= k < |before| ==> before[k].pos < p
    requires forall k :: 0 <= k < |notes| ==> notes[k].pos == p
    requires forall k :: 0 <= k < |rest| ==> p < rest[k].pos
    ensures ReachSum(a, before + notes + rest, p, |a.instrs|) == ReachSum(a, notes, p, |a.instrs|)
    ensures Patched(before + notes + rest, p) <==> notes != []
  {
    SumConcat(a, before + notes, rest, p);
    SumConcat(a, before, notes, p);
    SumNone(a, before, p, |a.instrs|);
    SumNone(a, rest, p, |a.instrs|);
    var all := before + notes + rest;
    if notes != [] {
      assert all[|before|] == notes[0];
    } else {
      forall k | 0 <= k < |all| ensures all[k].pos != p {
        assert all[k] == if k < |before| then before[k] else rest[k - |before|];
      }
    }
  }

  /** What statement `j` leaves in the whole program: its instruction at `p`, and its notes between the others. */
  ghost predicate Leaves(at: Source, i: Instruction, notes: seq<Patch>, st: Source) {
    var p, n := |at.instrs|, |at.patches|;
    && p < |st.instrs| && st.instrs[p] == i
    && n + |notes| <= |st.patches| && st.patches[..n + |notes|] == at.patches + notes
    && (forall k :: 0 <= k < n ==> at.patches[k].pos < p)
    && (forall k :: n + |notes| <= k < |st.patches| ==> p < st.patches[k].pos)
  }

  lemma NextLeaves(at: Source, l: Line, next: Source, st: Source)
    requires ValidLine(l) && l.InstrLine? && After(at, l) == Some(next) && Bounded(at) && Extends(next, st)
    ensures Operands(l.mentions, at.symbols).Some?
    ensures Leaves(at, Build(l.opc, l.mode, Operands(l.mentions, at.symbols).value),
                   Notes(l.mentions, |at.instrs|, at.symbols), st)
  {
    hide Build, Operands, Notes;
    assert st.instrs[|at.instrs|] == next.instrs[|at.instrs|];
    assert st.patches[..|next.patches|] == next.patches;
  }

  lemma LineLeaves(lines: seq<Line>, j: nat)
    requires ValidLines(lines) && AfterAll(lines).Some? && j < |lines| && lines[j].InstrLine?
    ensures AfterAll(lines[..j]).Some? && Operands(lines[j].mentions, AfterAll(lines[..j]).value.symbols).Some?
    ensures Bounded(AfterAll(lines).value)
    ensures var l, at := lines[j], AfterAll(lines[..j]).value;
            Leaves(at, Build(l.opc, l.mode, Operands(l.mentions, at.symbols).value),
                   Notes(l.mentions, |at.instrs|, at.symbols), AfterAll(lines).value)
  {
    RunExtends(lines, j);
    RunExtends(lines, j + 1);
    assert lines[..j + 1][..j] == lines[..j] && lines[..j + 1][j] == lines[j];
    var at, next, st := AfterAll(lines[..j]).value, AfterAll(lines[..j + 1]).value, AfterAll(lines).value;
    assert After(at, lines[j]) == Some(next);
    hide Build, Operands, Notes, AfterAll;
    NextLeaves(at, lines[j], next, st);
  }

  /** What the linker adds to the immediate of statement `j`. */
  function Shift(a: AsmInput, ms: seq<Mention>, p: nat, symbols: map<string, Symbol>): int
    requires Shaped(a.instrs) && p < |a.instrs|
  {
    AddressesFor(a, ms, symbols) - if Notes(ms, p, symbols) == [] then 0 else Address(a.instrs, a.db, p)
  }

  lemma LinkedLine(at: Source, l: Line, st: Source)
    requires ValidLine(l) && l.InstrLine? && Operands(l.mentions, at.symbols).Some? && Shaped(st.instrs)
    requires Leaves(at, Build(l.opc, l.mode, Operands(l.mentions, at.symbols).value),
                    Notes(l.mentions, |at.instrs|, at.symbols), st)
    ensures var a, p := InputOf(st), |at.instrs|;
            Linked(a)[p] == Shifted(l.opc, l.mode, Operands(l.mentions, at.symbols).value,
                                    Shift(a, l.mentions, p, at.symbols))
  {
    var a, p := InputOf(st), |at.instrs|;
    var notes := Notes(l.mentions, p, at.symbols);
    hide Build, Operands, Notes, Linked;
    var rest := st.patches[|at.patches + notes|..];
    assert st.patches == at.patches + notes + rest;
    NotesOn(l.mentions, p, at.symbols);
    NotesHere(a, at.patches, notes, rest, p);
    LinkedSum(a, p);
    NotesSum(a, l.mentions, p, at.symbols);
  }

  // ---------------------------------------------------------------------------------------------
  // Whole programs
  // ---------------------------------------------------------------------------------------------

  /** The code that the linker writes behind header and constants, in less than 2^31 bytes. */
  ghost predicate Output(a: AsmInput, head: seq<Byte>, code: seq<Byte>) {
    && AllWellFormed(a.instrs) && AllWellFormed(Linked(a)) && 0 < |head| == a.db
    && code == head + EncodeAll(Linked(a)) && |code| < 0x8000_0000
  }

  lemma OutputAround(a: AsmInput, head: seq<Byte>, code: seq<Byte>, p: nat)
    returns (pre: seq<Byte>, post: seq<Byte>)
    requires Output(a, head, code) && p < |a.instrs|
    ensures WellFormed(Linked(a)[p])
    ensures code == pre + Encode(Linked(a)[p]) + post && |pre| == Address(a.instrs, a.db, p)
  {
    assert Shaped(a.instrs);
    hide WellFormed, Encode, Linked, EncodeAll, Address;
    LinkedWellFormed(a);
    AddressSameShape(a.instrs, Linked(a), a.db, p);
    pre, post := AroundInstruction(head, Linked(a), p);
  }

  lemma AddressesInside(a: AsmInput, head: seq<Byte>, code: seq<Byte>, k: nat)
    requires Output(a, head, code) && k <= |a.instrs|
    ensures 0 < Address(a.instrs, a.db, k) < 0x8000_0000
    ensures k < |a.instrs| ==> Address(a.instrs, a.db, k) < Address(a.instrs, a.db, |a.instrs|)
  {
    assert Shaped(a.instrs);
    hide WellFormed, Encode, Linked, EncodeAll;
    LinkedWellFormed(a);
    CodeLength(head, Linked(a));
    AddressSameShape(a.instrs, Linked(a), a.db, |a.instrs|);
    AddressGrows(a.instrs, a.db, k, |a.instrs|);
  }

  /** A mention that leads somewhere adds an address in front of the end of the code; any other adds nothing. */
  lemma AddressForBounds(a: AsmInput, head: seq<Byte>, code: seq<Byte>, m: Mention, symbols: map<string, Symbol>)
    requires Output(a, head, code)
    ensures AddressFor(a, m, symbols) < Address(a.instrs, a.db, |a.instrs|) < 0x8000_0000
    ensures AddressFor(a, m, symbols) > 0 <==> Leads(a, m, symbols)
  {
    hide Output, Address;
    AddressesInside(a, head, code, |a.instrs|);
    if Leads(a, m, symbols) {
      AddressesInside(a, head, code, TargetOf(a.symbols, m.name).value);
    }
  }

  lemma TwoAddresses(a: AsmInput, ms: seq<Mention>, symbols: map<string, Symbol>)
    requires Shaped(a.instrs) && 1 <= |ms| <= 2
    ensures AddressesFor(a, ms, symbols) ==
            AddressFor(a, ms[0], symbols) + if |ms| == 2 then AddressFor(a, ms[1], symbols) else 0
  {
    hide AddressFor;
    assert AddressesFor(a, ms[..0], symbols) == 0;
    assert ms[..1][..0] == ms[..0];
    assert AddressesFor(a, ms[..1], symbols) == AddressFor(a, ms[0], symbols);
    assert ms[..|ms|] == ms;
  }

  /** The address of the label that a mention names, an instruction's or the end. */
  predicate LabelAt(a: AsmInput, m: Mention, symbols: map<string, Symbol>, to: nat)
    requires Shaped(a.instrs)
  {
    IsReference(m, symbols) &&
    var t := TargetOf(a.symbols, m.name); t.Some? && t.value <= |a.instrs| && to == Address(a.instrs, a.db, t.value)
  }

  lemma MentionAddress(a: AsmInput, head: seq<Byte>, code: seq<Byte>, m: Mention, symbols: map<string, Symbol>, to: nat)
    requires Output(a, head, code) && LabelAt(a, m, symbols, to)
    ensures 0 < to < 0x8000_0000
    ensures if Leads(a, m, symbols) then AddressFor(a, m, symbols) == to
            else AddressFor(a, m, symbols) == 0 && to == Address(a.instrs, a.db, |a.instrs|)
  {
    hide Output, Address;
    AddressesInside(a, head, code, TargetOf(a.symbols, m.name).value);
  }

  /** Mention `k` leads to its label, and no other mention leads anywhere. */
  predicate OnlyLeads(a: AsmInput, ms: seq<Mention>, k: nat, symbols: map<string, Symbol>)
    requires k < |ms|
  {
    Leads(a, ms[k], symbols) && forall i :: 0 <= i < |ms| && i != k ==> !Leads(a, ms[i], symbols)
  }

  lemma OnlyLeadsIs(a: AsmInput, ms: seq<Mention>, k: nat, symbols: map<string, Symbol>)
    requires k < |ms| <= 2
    ensures OnlyLeads(a, ms, k, symbols) <==>
            Leads(a, ms[k], symbols) && (|ms| == 2 ==> !Leads(a, ms[1 - k], symbols))
  {
    hide Leads;
  }

  /** The addresses of all mentions are that of a label exactly when nothing but the label's mention leads anywhere. */
  lemma SumIsTarget(a: AsmInput, head: seq<Byte>, code: seq<Byte>, ms: seq<Mention>, k: nat,
                    symbols: map<string, Symbol>, to: nat)
    requires Output(a, head, code) && k < |ms| <= 2 && LabelAt(a, ms[k], symbols, to)
    ensures 0 < to < 0x8000_0000
    ensures to - AddressesFor(a, ms, symbols) < U32 && AddressesFor(a, ms, symbols) - to < U32
    ensures AddressesFor(a, ms, symbols) == to <==> OnlyLeads(a, ms, k, symbols)
  {
    assert Shaped(a.instrs);
    hide *;
    TwoAddresses(a, ms, symbols);
    OnlyLeadsIs(a, ms, k, symbols);
    MentionAddress(a, head, code, ms[k], symbols, to);
    if |ms| == 2 {
      AddressForBounds(a, head, code, ms[1 - k], symbols);
    }
  }

  /** In the code, the machine finds operand `k` of the instruction at `p` as the distance to the label. */
  ghost predicate FoundAsDistance(a: AsmInput, code: seq<Byte>, p: nat, k: nat, m: Mention)
    requires Shaped(a.instrs) && p < |a.instrs| && m.Name?
    requires TargetOf(a.symbols, m.name).Some? && TargetOf(a.symbols, m.name).value <= |a.instrs|
  {
    var from, to := Address(a.instrs, a.db, p), Address(a.instrs, a.db, TargetOf(a.symbols, m.name).value);
    var f := Fetch(code, from);
    f.Fetched? && Shows(f.instr, k, to - from, m.mem)
  }

  lemma MentionOperands(ms: seq<Mention>, k: nat, pos: nat, symbols: map<string, Symbol>)
    requires |ms| <= 2 && (forall i :: 0 <= i < |ms| ==> ValidMention(ms[i])) && Operands(ms, symbols).Some?
    requires k < |ms| && IsReference(ms[k], symbols)
    ensures AllValid(Operands(ms, symbols).value) && Notes(ms, pos, symbols) != []
    ensures Operands(ms, symbols).value[k] == ImmOp(0, SZ_WORD, ms[k].mem)
  {
    OperandsOf(ms, pos, symbols);
  }

  /** What the machine finds of a reference, in terms of what the linker adds. */
  lemma LinkedReference(at: Source, l: Line, st: Source, k: nat, pre: seq<Byte>, post: seq<Byte>, d: int)
    requires ValidLine(l) && l.InstrLine? && Operands(l.mentions, at.symbols).Some? && Shaped(st.instrs)
    requires Leaves(at, Build(l.opc, l.mode, Operands(l.mentions, at.symbols).value),
                    Notes(l.mentions, |at.instrs|, at.symbols), st)
    requires k < |l.mentions| && IsReference(l.mentions[k], at.symbols) && Fits(d, 4)
    requires d - Shift(InputOf(st), l.mentions, |at.instrs|, at.symbols) < U32
    requires Shift(InputOf(st), l.mentions, |at.instrs|, at.symbols) - d < U32
    ensures WellFormed(Linked(InputOf(st))[|at.instrs|])
    ensures var f := Fetch(pre + Encode(Linked(InputOf(st))[|at.instrs|]) + post, |pre|);
            f.Fetched? && (Shows(f.instr, k, d, l.mentions[k].mem) <==>
                             k == |l.mentions| - 1 && Shift(InputOf(st), l.mentions, |at.instrs|, at.symbols) == d)
  {
    var a, p, ms := InputOf(st), |at.instrs|, l.mentions;
    hide Build, Fetch, Encode, Shows, Linked, WellFormed, Shift, Notes, Fits;
    LinkedLine(at, l, st);
    MentionOperands(ms, k, p, at.symbols);
    ReferenceShown(pre, post, l.opc, l.mode, Operands(ms, at.symbols).value, k, ms[k].mem,
                   Shift(a, ms, p, at.symbols), d);
  }

  lemma ShiftIs(a: AsmInput, ms: seq<Mention>, k: nat, p: nat, symbols: map<string, Symbol>)
    requires Shaped(a.instrs) && p < |a.instrs| && |ms| <= 2 && k < |ms| && IsReference(ms[k], symbols)
    requires (forall i :: 0 <= i < |ms| ==> ValidMention(ms[i])) && Operands(ms, symbols).Some?
    ensures Shift(a, ms, p, symbols) == AddressesFor(a, ms, symbols) - Address(a.instrs, a.db, p)
  {
    hide Address, AddressesFor;
    MentionOperands(ms, k, p, symbols);
  }

  lemma ReferenceInCode(at: Source, l: Line, st: Source, k: nat, head: seq<Byte>, code: seq<Byte>)
    requires ValidLine(l) && l.InstrLine? && Operands(l.mentions, at.symbols).Some?
    requires Leaves(at, Build(l.opc, l.mode, Operands(l.mentions, at.symbols).value),
                    Notes(l.mentions, |at.instrs|, at.symbols), st)
    requires k < |l.mentions| && IsReference(l.mentions[k], at.symbols) && Output(InputOf(st), head, code)
    requires var t := TargetOf(st.symbols, l.mentions[k].name); t.Some? && t.value <= |st.instrs|
    ensures FoundAsDistance(InputOf(st), code, |at.instrs|, k, l.mentions[k]) <==>
            k == |l.mentions| - 1 && OnlyLeads(InputOf(st), l.mentions, k, at.symbols)
  {
    var a, p, ms := InputOf(st), |at.instrs|, l.mentions;
    assert Shaped(a.instrs);
    hide Build, Operands, Notes, Fetch, Encode, Shows, Output, Address, Linked, WellFormed, OnlyLeads, Shift, Fits;
    hide AddressesFor;
    var pre, post := OutputAround(a, head, code, p);
    var to := Address(a.instrs, a.db, TargetOf(st.symbols, ms[k].name).value);
    SumIsTarget(a, head, code, ms, k, at.symbols, to);
    AddressesInside(a, head, code, p);
    var d := to - Address(a.instrs, a.db, p);
    WordFits(d);
    ShiftIs(a, ms, k, p, at.symbols);
    LinkedReference(at, l, st, k, pre, post, d);
  }

  lemma LabelBounded(st: Source, name: string)
    requires Bounded(st) && TargetOf(st.symbols, name).Some?
    ensures TargetOf(st.symbols, name).value <= |st.instrs|
  {
  }

  /**
   A reference to a label is found as the distance to the label exactly when it is the last operand, an
   instruction follows the label, and no other operand of the instruction is a reference to such a label.
   */
  lemma ReferenceExact(lines: seq<Line>, j: nat, k: nat, head: seq<Byte>, code: seq<Byte>)
    requires ValidLines(lines) && AfterAll(lines).Some? && j < |lines| && AfterAll(lines[..j]).Some?
    requires lines[j].InstrLine? && k < |lines[j].mentions|
    requires IsReference(lines[j].mentions[k], AfterAll(lines[..j]).value.symbols)
    requires TargetOf(AfterAll(lines).value.symbols, lines[j].mentions[k].name).Some?
    requires Output(InputOf(AfterAll(lines).value), head, code)
    ensures var at, st, ms := AfterAll(lines[..j]).value, AfterAll(lines).value, lines[j].mentions;
            && |at.instrs| < |st.instrs| && TargetOf(st.symbols, ms[k].name).value <= |st.instrs|
            && (FoundAsDistance(InputOf(st), code, |at.instrs|, k, ms[k]) <==>
                k == |ms| - 1 && OnlyLeads(InputOf(st), ms, k, at.symbols))
  {
    LineLeaves(lines, j);
    var at, st := AfterAll(lines[..j]).value, AfterAll(lines).value;
    LabelBounded(st, lines[j].mentions[k].name);
    hide AfterAll, FoundAsDistance, OnlyLeads, Build, Operands, Notes, Bounded;
    ReferenceInCode(at, lines[j], st, k, head, code);
  }

  // ---------------------------------------------------------------------------------------------
  // References in first place
  // ---------------------------------------------------------------------------------------------

  lemma FirstOfTwo(ms: seq<Mention>, pos: nat, symbols: map<string, Symbol>)
    requires |ms| == 2 && (forall i :: 0 <= i < 2 ==> ValidMention(ms[i])) && Operands(ms, symbols).Some?
    requires IsReference(ms[0], symbols)
    ensures AllValid(Operands(ms, symbols).value) && Notes(ms, pos, symbols) != []
    ensures Operands(ms, symbols).value == [ImmOp(0, SZ_WORD, ms[0].mem), Operands(ms, symbols).value[1]]
  {
    MentionOperands(ms, 0, pos, symbols);
  }

  /**
   The place of the first operand is register 2, and the distance to the label of `m` is in the immediate of the
   instruction, on top of what the operands make of it.
   */
  ghost predicate LostInFront(a: AsmInput, code: seq<Byte>, p: nat, m: Mention)
    requires Shaped(a.instrs) && p < |a.instrs| && m.Name?
    requires TargetOf(a.symbols, m.name).Some? && TargetOf(a.symbols, m.name).value <= |a.instrs|
  {
    var from, to := Address(a.instrs, a.db, p), Address(a.instrs, a.db, TargetOf(a.symbols, m.name).value);
    var f := Fetch(code, from);
    && Linked(a)[p].ii == a.instrs[p].ii + (to - from)
    && f.Fetched? && (forall s: State :: s.Valid() ==> PlaceA(s, f.instr) == RegisterPlace(s, SZ_WORD, m.mem, 0))
    && (ImmediateFits(Linked(a)[p]) ==> f.instr == Normal(Linked(a)[p]))
  }

  lemma MisplacedInCode(at: Source, l: Line, st: Source, head: seq<Byte>, code: seq<Byte>)
    requires ValidLine(l) && l.InstrLine? && Operands(l.mentions, at.symbols).Some? && |l.mentions| == 2
    requires Leaves(at, Build(l.opc, l.mode, Operands(l.mentions, at.symbols).value),
                    Notes(l.mentions, |at.instrs|, at.symbols), st)
    requires Output(InputOf(st), head, code)
    requires Leads(InputOf(st), l.mentions[0], at.symbols) && !Leads(InputOf(st), l.mentions[1], at.symbols)
    ensures LostInFront(InputOf(st), code, |at.instrs|, l.mentions[0])
  {
    var a, p, ms := InputOf(st), |at.instrs|, l.mentions;
    var ops := Operands(ms, at.symbols).value;
    FirstOfTwo(ms, p, at.symbols);
    FirstReference(l.opc, l.mode, ops, ms[0].mem, Shift(a, ms, p, at.symbols));
    LinkedLine(at, l, st);
    var pre, post := OutputAround(a, head, code, p);
    TwoAddresses(a, ms, at.symbols);
    hide Build, Fetch, Encode, Output, Address, Linked, WellFormed, Reg, AddressesFor, Leads, Operands, Notes;
    FetchEncoded(pre, Linked(a)[p], post);
  }

  /**
   In front of another operand a reference is lost: its place is taken for register 2. The distance to its label
   is added to the immediate of the instruction, whatever the second operand makes of it.
   */
  lemma MisplacedReference(lines: seq<Line>, j: nat, head: seq<Byte>, code: seq<Byte>)
    requires ValidLines(lines) && AfterAll(lines).Some? && j < |lines| && AfterAll(lines[..j]).Some?
    requires lines[j].InstrLine? && |lines[j].mentions| == 2 && Output(InputOf(AfterAll(lines).value), head, code)
    requires Leads(InputOf(AfterAll(lines).value), lines[j].mentions[0], AfterAll(lines[..j]).value.symbols)
    requires !Leads(InputOf(AfterAll(lines).value), lines[j].mentions[1], AfterAll(lines[..j]).value.symbols)
    ensures var at, st := AfterAll(lines[..j]).value, AfterAll(lines).value;
            |at.instrs| < |st.instrs| && LostInFront(InputOf(st), code, |at.instrs|, lines[j].mentions[0])
  {
    LineLeaves(lines, j);
    var at, st := AfterAll(lines[..j]).value, AfterAll(lines).value;
    hide AfterAll, LostInFront, Build, Operands, Notes, Bounded;
    MisplacedInCode(at, lines[j], st, head, code);
  }

  /** `mov [x], 5` in front of the label `x`, and `halt` behind it. */
  const MISPLACED: seq<Line> := [InstrLine(MOV, 3, [Name("x", false, true), Number(Literal(5, false), false)]),
                                 LabelLine("x"), InstrLine(HALT, 3, [])]

  /** The two instructions as the assembler builds them. */
  const MISPLACED_MOV: Instruction := BLANK.(osz := 3, opc := MOV, imd := 3, ra := 2, iam := true, rmd := true, ii := 5)
  const MISPLACED_HALT: Instruction := BLANK.(osz := 1, opc := HALT, imd := 3)

  lemma TwoMentions(m: Mention, n: Mention, pos: nat, symbols: map<string, Symbol>)
    requires OperandFor(m, symbols).Some? && OperandFor(n, symbols).Some?
    ensures Operands([m, n], symbols) == Some([OperandFor(m, symbols).value, OperandFor(n, symbols).value])
    ensures Notes([m, n], pos, symbols) == NotesFor(m, pos, symbols) + NotesFor(n, pos, symbols)
  {
    assert [m, n][..1] == [m] && [m][..0] == [];
    assert Operands([m][..0], symbols) == Some([]);
    assert Operands([m], symbols).Some? && Operands([m], symbols).value == [OperandFor(m, symbols).value];
    assert Operands([m, n], symbols).value == [OperandFor(m, symbols).value, OperandFor(n, symbols).value];
    OperandsOf([m, n], pos, symbols);
  }

  lemma MisplacedMov()
    ensures After(NOTHING, MISPLACED[0]) == Some(Source([MISPLACED_MOV], [Patch(0, "x")], map[], [], 0))
  {
    var m, n := Name("x", false, true), Number(Literal(5, false), false);
    TwoMentions(m, n, 0, map[]);
    assert OperandFor(n, map[]) == Some(ImmOp(5, 0, false));
    assert Build(MOV, 3, [ImmOp(0, SZ_WORD, true), ImmOp(5, 0, false)]) == MISPLACED_MOV;
    var after := After(NOTHING, InstrLine(MOV, 3, [m, n])).value;
    assert after.instrs == [MISPLACED_MOV] && after.patches == [Patch(0, "x")];
  }

  lemma MisplacedHalt(st: Source)
    ensures After(st, MISPLACED[2]) == Some(st.(instrs := st.instrs + [MISPLACED_HALT]))
  {
    assert Operands([], st.symbols) == Some([]) && Notes([], |st.instrs|, st.symbols) == [];
    assert st.patches + [] == st.patches;
  }

  lemma MisplacedLabel(st: Source)
    requires "x" !in st.symbols
    ensures After(st, MISPLACED[1]) == Some(st.(symbols := st.symbols["x" := Symbol(|st.instrs|, 0, Label)]))
  {
    assert "x"[0] != "main"[0];
  }

  lemma ThreeLines(l: seq<Line>, a: Source, b: Source, c: Source)
    requires |l| == 3 && ValidLines(l)
    requires After(NOTHING, l[0]) == Some(a) && After(a, l[1]) == Some(b) && After(b, l[2]) == Some(c)
    ensures AfterAll(l[..0]) == Some(NOTHING) && AfterAll(l) == Some(c)
  {
    hide After, ValidLine;
    assert l[..1][..0] == l[..0] && l[..2][..1] == l[..1] && l[..3] == l && l[..3][..2] == l[..2];
    assert AfterAll(l[..1]) == Some(a);
    assert AfterAll(l[..2]) == Some(b);
  }

  /** What the assembler collects from it. */
  const MISPLACED_SOURCE: Source := Source([MISPLACED_MOV, MISPLACED_HALT], [Patch(0, "x")],
                                           map["x" := Symbol(1, 0, Label)], [], 0)

  lemma MisplacedSource()
    ensures ValidLines(MISPLACED) && AfterAll(MISPLACED[..0]) == Some(NOTHING)
    ensures AfterAll(MISPLACED) == Some(MISPLACED_SOURCE)
  {
    var a := Source([MISPLACED_MOV], [Patch(0, "x")], map[], [], 0);
    var b := a.(symbols := map["x" := Symbol(1, 0, Label)]);
    assert ValidLines(MISPLACED);
    hide After, AfterAll;
    MisplacedMov();
    MisplacedLabel(a);
    assert a.symbols["x" := Symbol(|a.instrs|, 0, Label)] == b.symbols;
    MisplacedHalt(b);
    assert b.instrs + [MISPLACED_HALT] == MISPLACED_SOURCE.instrs;
    ThreeLines(MISPLACED, a, b, MISPLACED_SOURCE);
  }

  /** The label is 4 bytes behind the instruction. */
  lemma MisplacedAddresses()
    ensures var a := InputOf(MISPLACED_SOURCE);
            Address(a.instrs, a.db, 0) == HEADER && Address(a.instrs, a.db, 1) == HEADER + 4 &&
            TargetOf(a.symbols, "x") == Some(1)
  {
    var a := InputOf(MISPLACED_SOURCE);
    assert Length(a.instrs[0]) == 4;
    assert Address(a.instrs, a.db, 0) == HEADER;
  }

  lemma NineFits()
    ensures Fits(9, 1)
  {
  }

  /** The machine executes it as `mov [r2], 9`: the distance 4 to the label is added to the number 5. */
  lemma MisplacedExample(head: seq<Byte>, code: seq<Byte>)
    requires AfterAll(MISPLACED).Some? && Output(InputOf(AfterAll(MISPLACED).value), head, code)
    ensures var f := Fetch(code, HEADER);
            f.Fetched? && f.instr.opc == MOV && forall s: State :: s.Valid() ==>
                PlaceA(s, f.instr) == RegisterPlace(s, 2, true, 0) && PlaceB(s, f.instr) == LiteralPlace(s, 9, false)
  {
    MisplacedSource();
    MisplacedAddresses();
    var a := InputOf(MISPLACED_SOURCE);
    hide Output, AfterAll, Address, Fetch, Reg;
    assert Leads(a, MISPLACED[0].mentions[0], map[]) && !Leads(a, MISPLACED[0].mentions[1], map[]);
    MisplacedReference(MISPLACED, 0, head, code);
    assert Linked(a)[0] == a.instrs[0].(ii := 9);
    NineFits();
  }
}
