/**
 What the text of a program says, statement by statement: the instruction behind a label, the bytes of a variable,
 the entry, which texts are errors, and what the machine finds of a name that is already known.
 */
module ProgramLaws {
  import opened Basics
  import opened Bytes
  import opened Instructions
  import opened Assembler
  import opened Machine
  import opened Linking
  import opened OperandLaws
  import opened Programs
  import opened References

  /** The number of instructions in a text, and the bytes of its variables one behind the other. */
  function InstrCount(lines: seq<Line>): nat {
    if lines == [] then 0
    else InstrCount(lines[..|lines| - 1]) + if lines[|lines| - 1].InstrLine? then 1 else 0
  }

  function DataOf(lines: seq<Line>): seq<Byte> {
    if lines == [] then []
    else
      var l := lines[|lines| - 1];
      DataOf(lines[..|lines| - 1]) + if l.VarLine? then l.bytes else []
  }

  /** The name that a statement declares. */
  function Declared(l: Line): Option<string> {
    if l.InstrLine? then None else Some(l.name)
  }

  /** What a declaration in front of which the statements `before` stand makes of its name. */
  function Meaning(before: seq<Line>, l: Line): Symbol
    requires !l.InstrLine?
  {
    match l
    case LabelLine(_) => Symbol(InstrCount(before), 0, Label)
    case VarLine(_, b) => Symbol(HEADER + |DataOf(before)|, |b|, Var)
    case DefLine(_, v) => Symbol(v, 0, Tag.Define)
  }

  lemma {:induction false} Collected(lines: seq<Line>)
    requires ValidLines(lines) && AfterAll(lines).Some?
    ensures |AfterAll(lines).value.instrs| == InstrCount(lines) && AfterAll(lines).value.constants == DataOf(lines)
  {
    hide Build, Operands, Notes;
    if lines != [] {
      Collected(lines[..|lines| - 1]);
    }
  }

  /** A declaration stays what it means. */
  lemma {:induction false} NameStays(lines: seq<Line>, j: nat)
    requires ValidLines(lines) && AfterAll(lines).Some? && j < |lines| && !lines[j].InstrLine?
    ensures lines[j].name in AfterAll(lines).value.symbols
    ensures AfterAll(lines).value.symbols[lines[j].name] == Meaning(lines[..j], lines[j])
    decreases |lines|
  {
    hide Build, Operands, Notes;
    var before := lines[..|lines| - 1];
    if j == |lines| - 1 {
      Collected(before);
    } else {
      assert before[..j] == lines[..j];
      NameStays(before, j);
    }
  }

  /** A label is the number of instructions in front of it: it leads to the next instruction. */
  lemma LabelIs(lines: seq<Line>, j: nat)
    requires ValidLines(lines) && AfterAll(lines).Some? && j < |lines| && lines[j].LabelLine?
    ensures TargetOf(AfterAll(lines).value.symbols, lines[j].name) == Some(InstrCount(lines[..j]))
  {
    NameStays(lines, j);
  }

  /** Instruction number `InstrCount(lines[..j])` of the program is that of statement `j`. */
  lemma InstructionIs(lines: seq<Line>, j: nat)
    requires ValidLines(lines) && AfterAll(lines).Some? && j < |lines| && lines[j].InstrLine?
    ensures AfterAll(lines[..j]).Some? && Operands(lines[j].mentions, AfterAll(lines[..j]).value.symbols).Some?
    ensures InstrCount(lines[..j]) < |AfterAll(lines).value.instrs|
    ensures AfterAll(lines).value.instrs[InstrCount(lines[..j])] ==
            Build(lines[j].opc, lines[j].mode, Operands(lines[j].mentions, AfterAll(lines[..j]).value.symbols).value)
  {
    LineLeaves(lines, j);
    Collected(lines[..j]);
  }

  /** The last label that "main" begins with is the entry, and without one the first instruction. */
  lemma {:induction false} EntryIs(lines: seq<Line>, j: nat)
    requires ValidLines(lines) && AfterAll(lines).Some? && j < |lines|
    requires lines[j].LabelLine? && lines[j].name <= "main"
    requires forall k :: j < k < |lines| && lines[k].LabelLine? ==> !(lines[k].name <= "main")
    ensures AfterAll(lines).value.main == InstrCount(lines[..j])
    decreases |lines|
  {
    hide Build, Operands, Notes;
    var before := lines[..|lines| - 1];
    if j == |lines| - 1 {
      Collected(before);
    } else {
      assert before[..j] == lines[..j];
      EntryIs(before, j);
    }
  }

  lemma {:induction false} NoEntry(lines: seq<Line>)
    requires ValidLines(lines) && AfterAll(lines).Some?
    requires forall k :: 0 <= k < |lines| && lines[k].LabelLine? ==> !(lines[k].name <= "main")
    ensures AfterAll(lines).value.main == 0
  {
    hide Build, Operands, Notes;
    if lines != [] {
      NoEntry(lines[..|lines| - 1]);
    }
  }

  lemma {:induction false} DataBefore(lines: seq<Line>, j: nat)
    requires j <= |lines|
    ensures DataOf(lines[..j]) <= DataOf(lines)
    decreases |lines|
  {
    if j == |lines| {
      assert lines[..j] == lines;
    } else {
      assert lines[..|lines| - 1][..j] == lines[..j];
      DataBefore(lines[..|lines| - 1], j);
    }
  }

  lemma SliceInside(head: seq<Byte>, before: seq<Byte>, b: seq<Byte>, data: seq<Byte>, rest: seq<Byte>)
    requires before + b <= data
    ensures var at, code := |head| + |before|, head + data + rest;
            at + |b| <= |head| + |data| <= |code| && code[at..at + |b|] == b
  {
    var at, code := |head| + |before|, head + data + rest;
    assert data[|before|..|before| + |b|] == b;
    assert code[at..at + |b|] == data[|before|..|before| + |b|];
  }

  /** At the address of a variable the code holds the bytes that the variable was declared with. */
  lemma VariableBytes(lines: seq<Line>, j: nat, head: seq<Byte>, rest: seq<Byte>)
    requires ValidLines(lines) && AfterAll(lines).Some? && j < |lines| && lines[j].VarLine? && |head| == HEADER
    ensures lines[j].name in AfterAll(lines).value.symbols
    ensures var v, b := AfterAll(lines).value.symbols[lines[j].name], lines[j].bytes;
            var code := head + AfterAll(lines).value.constants + rest;
            v.size == |b| && v.id + |b| <= HEADER + |AfterAll(lines).value.constants| <= |code| &&
            code[v.id..v.id + |b|] == b
  {
    NameStays(lines, j);
    Collected(lines);
    hide AfterAll, After;
    DataBefore(lines, j + 1);
    assert lines[..j + 1][..j] == lines[..j] && lines[..j + 1][j] == lines[j];
    var before, b := DataOf(lines[..j]), lines[j].bytes;
    assert DataOf(lines[..j + 1]) == before + b;
    SliceInside(head, before, b, AfterAll(lines).value.constants, rest);
  }

  // ---------------------------------------------------------------------------------------------
  // Which texts are errors
  // ---------------------------------------------------------------------------------------------

  /** No two statements declare the same name. */
  predicate NamesDiffer(lines: seq<Line>) {
    forall i, j :: 0 <= i < j < |lines| && Declared(lines[i]).Some? ==> Declared(lines[i]) != Declared(lines[j])
  }

  ghost predicate VariableAbove(lines: seq<Line>, j: nat, name: string)
    requires j <= |lines|
  {
    exists i :: 0 <= i < j && lines[i].VarLine? && lines[i].name == name
  }

  ghost predicate SizesKnownAt(lines: seq<Line>, j: nat)
    requires j < |lines|
  {
    lines[j].InstrLine? ==>
      forall k :: 0 <= k < |lines[j].mentions| && lines[j].mentions[k].Name? && lines[j].mentions[k].size ==>
        VariableAbove(lines, j, lines[j].mentions[k].name)
  }

  /** A size is asked of names only that have been declared as variables in front of the instruction. */
  ghost predicate SizesKnown(lines: seq<Line>) {
    forall j :: 0 <= j < |lines| ==> SizesKnownAt(lines, j)
  }

  /** The names that are known are the declared ones. */
  lemma {:induction false} KnownNames(lines: seq<Line>, name: string)
    requires ValidLines(lines) && AfterAll(lines).Some?
    ensures name in AfterAll(lines).value.symbols <==> exists i :: 0 <= i < |lines| && Declared(lines[i]) == Some(name)
  {
    hide Build, Operands, Notes;
    if lines != [] {
      var n := |lines| - 1;
      var before := lines[..n];
      KnownNames(before, name);
      if i :| 0 <= i < |before| && Declared(before[i]) == Some(name) {
        assert lines[i] == before[i];
      }
      if i :| 0 <= i < |lines| && Declared(lines[i]) == Some(name) {
        assert i < n ==> before[i] == lines[i];
      }
    }
  }

  /** The known variables are the declared ones. */
  lemma VariableKnown(lines: seq<Line>, name: string)
    requires ValidLines(lines) && AfterAll(lines).Some?
    ensures var s := AfterAll(lines).value.symbols;
            name in s && s[name].tag == Var <==> VariableAbove(lines, |lines|, name)
  {
    KnownNames(lines, name);
    if name in AfterAll(lines).value.symbols {
      var i :| 0 <= i < |lines| && Declared(lines[i]) == Some(name);
      NameStays(lines, i);
    }
    if i :| 0 <= i < |lines| && lines[i].VarLine? && lines[i].name == name {
      NameStays(lines, i);
      assert Declared(lines[i]) == Some(name);
    }
  }

  lemma {:induction false} OperandsSome(ms: seq<Mention>, symbols: map<string, Symbol>)
    ensures Operands(ms, symbols).Some? <==> forall k :: 0 <= k < |ms| ==> OperandFor(ms[k], symbols).Some?
  {
    hide OperandFor;
    if ms != [] {
      OperandsSome(ms[..|ms| - 1], symbols);
    }
  }

  lemma SameAbove(lines: seq<Line>, l: Line, name: string)
    ensures VariableAbove(lines + [l], |lines|, name) <==> VariableAbove(lines, |lines|, name)
  {
    assert forall i :: 0 <= i < |lines| ==> (lines + [l])[i] == lines[i];
    if i :| 0 <= i < |lines| && lines[i].VarLine? && lines[i].name == name {
      assert (lines + [l])[i] == lines[i];
    }
  }

  /** The name that `l` declares is new behind `lines`. */
  predicate NewName(lines: seq<Line>, l: Line) {
    forall i :: 0 <= i < |lines| && Declared(lines[i]).Some? ==> Declared(lines[i]) != Declared(l)
  }

  /** One statement behind others that are none is an error exactly for these two reasons. */
  lemma StepExact(lines: seq<Line>, l: Line)
    requires ValidLines(lines + [l]) && ValidLines(lines) && AfterAll(lines).Some?
    ensures ValidLine(l)
    ensures After(AfterAll(lines).value, l).Some? <==>
            NewName(lines, l) && SizesKnownAt(lines + [l], |lines|)
  {
    assert (lines + [l])[|lines|] == l;
    var st := AfterAll(lines).value;
    hide Build, Notes, AfterAll;
    if l.InstrLine? {
      OperandsSome(l.mentions, st.symbols);
      forall k | 0 <= k < |l.mentions| && l.mentions[k].Name? && l.mentions[k].size
        ensures OperandFor(l.mentions[k], st.symbols).Some? <==>
                VariableAbove(lines + [l], |lines|, l.mentions[k].name)
      {
        VariableKnown(lines, l.mentions[k].name);
        SameAbove(lines, l, l.mentions[k].name);
      }
    } else {
      KnownNames(lines, l.name);
    }
  }

  lemma NamesDifferPush(lines: seq<Line>, l: Line)
    ensures NamesDiffer(lines + [l]) <==> NamesDiffer(lines) && NewName(lines, l)
  {
    hide Declared;
    var more := lines + [l];
    assert more[|lines|] == l && forall i :: 0 <= i < |lines| ==> more[i] == lines[i];
    if NamesDiffer(more) {
      forall i, j | 0 <= i < j < |lines| && Declared(lines[i]).Some? ensures Declared(lines[i]) != Declared(lines[j]) {
        assert more[i] == lines[i] && more[j] == lines[j];
      }
      forall i | 0 <= i < |lines| && Declared(lines[i]).Some? ensures Declared(lines[i]) != Declared(l) {
        assert more[i] == lines[i];
      }
    }
  }

  lemma SizesKnownPrefix(before: seq<Line>, l: Line, j: nat)
    requires j < |before|
    ensures SizesKnownAt(before + [l], j) <==> SizesKnownAt(before, j)
  {
    var lines := before + [l];
    assert lines[j] == before[j];
    forall name ensures VariableAbove(lines, j, name) <==> VariableAbove(before, j, name) {
      assert forall i :: 0 <= i < j ==> lines[i] == before[i];
      if i :| 0 <= i < j && before[i].VarLine? && before[i].name == name {
        assert lines[i] == before[i];
      }
    }
  }

  /** A text is accepted exactly when all declared names differ and sizes are asked of known variables only. */
  lemma {:induction false} AcceptedExact(lines: seq<Line>)
    requires ValidLines(lines)
    ensures AfterAll(lines).Some? <==> NamesDiffer(lines) && SizesKnown(lines)
  {
    hide After, Declared, SizesKnownAt, ValidLine;
    if lines != [] {
      var n := |lines| - 1;
      var before, l := lines[..n], lines[n];
      AcceptedExact(before);
      assert lines == before + [l];
      forall j | 0 <= j < n ensures SizesKnownAt(lines, j) <==> SizesKnownAt(before, j) {
        SizesKnownPrefix(before, l, j);
      }
      NamesDifferPush(before, l);
      if AfterAll(before).Some? {
        StepExact(before, l);
      }
    }
  }

  // ---------------------------------------------------------------------------------------------
  // What the machine finds
  // ---------------------------------------------------------------------------------------------

  /** No operand of the statement is a reference, and literals fit their sizes. */
  predicate Unreferenced(l: Line, symbols: map<string, Symbol>) {
    l.InstrLine? && forall k :: 0 <= k < |l.mentions| ==>
      SizedMention(l.mentions[k]) && !IsReference(l.mentions[k], symbols)
  }

  lemma NoNotes(l: Line, pos: nat, symbols: map<string, Symbol>)
    requires Unreferenced(l, symbols) && ValidLine(l) && Operands(l.mentions, symbols).Some?
    ensures Notes(l.mentions, pos, symbols) == []
    ensures var ops := Operands(l.mentions, symbols).value; l.mentions != [] ==> Usable(ops)
  {
    OperandsOf(l.mentions, pos, symbols);
    forall k | 0 <= k < |l.mentions|
      ensures var a := Operands(l.mentions, symbols).value[k]; ValidOperand(a) && SizedOperand(a)
    {
      MentionSized(l.mentions[k], symbols);
    }
  }

  /** The instruction `f` has the opcode, the mode and the operands `ops`, literals where they are not lost. */
  ghost predicate Decodes(f: Instruction, opc: nat, mode: nat, ops: seq<Operand>)
    requires Usable(ops)
  {
    && f.opc == opc && f.imd == mode && f.osz == |ops| + 1
    && forall k :: 0 <= k < |ops| ==>
         if ops[k].RegOp? then ShowsRegister(f, k, ops[k].reg, ops[k].mem, OffsetOf(ops, k))
         else Shows(f, k, ops[k].value, ops[k].mem) <==> k == |ops| - 1
  }

  lemma BuiltDecodes(pre: seq<Byte>, post: seq<Byte>, opc: nat, mode: nat, ops: seq<Operand>)
    requires opc < 64 && mode < 4 && Usable(ops)
    ensures WellFormed(Build(opc, mode, ops))
    ensures var f := Fetch(pre + Encode(Build(opc, mode, ops)) + post, |pre|);
            f.Fetched? && Decodes(f.instr, opc, mode, ops)
  {
    hide Fetch, Encode, Build, Shows, ShowsRegister, WellFormed;
    HeadShown(pre, post, opc, mode, ops);
    forall k | 0 <= k < |ops|
      ensures var f := Fetch(pre + Encode(Build(opc, mode, ops)) + post, |pre|).instr;
              if ops[k].RegOp? then ShowsRegister(f, k, ops[k].reg, ops[k].mem, OffsetOf(ops, k))
              else Shows(f, k, ops[k].value, ops[k].mem) <==> k == |ops| - 1
    {
      if ops[k].RegOp? {
        RegisterShown(pre, post, opc, mode, ops, k);
      } else {
        LiteralShown(pre, post, opc, mode, ops, k);
      }
    }
  }

  /** An instruction without notes is linked as it is. */
  lemma LinkedPlain(at: Source, l: Line, st: Source)
    requires ValidLine(l) && l.InstrLine? && Operands(l.mentions, at.symbols).Some? && Shaped(st.instrs)
    requires Notes(l.mentions, |at.instrs|, at.symbols) == []
    requires Leaves(at, Build(l.opc, l.mode, Operands(l.mentions, at.symbols).value), [], st)
    ensures Linked(InputOf(st))[|at.instrs|] == Build(l.opc, l.mode, Operands(l.mentions, at.symbols).value)
  {
    hide Build, Operands, Notes, Linked;
    var p := |at.instrs|;
    assert st.patches[..|at.patches|] == at.patches + [];
    forall k | 0 <= k < |st.patches| ensures st.patches[k].pos != p {
      assert k < |at.patches| ==> st.patches[k] == at.patches[k];
    }
    UnpatchedUnchanged(InputOf(st), p);
  }

  /**
   In the linked code of a program the machine finds every instruction without references, at its address, with
   the opcode, mode and operands of the text.
   */
  lemma TextInCode(lines: seq<Line>, j: nat, head: seq<Byte>, code: seq<Byte>)
    requires ValidLines(lines) && AfterAll(lines).Some? && j < |lines| && AfterAll(lines[..j]).Some?
    requires Unreferenced(lines[j], AfterAll(lines[..j]).value.symbols) && lines[j].mentions != []
    requires Output(InputOf(AfterAll(lines).value), head, code)
    ensures var l, a, p := lines[j], InputOf(AfterAll(lines).value), InstrCount(lines[..j]);
            var ops := Operands(l.mentions, AfterAll(lines[..j]).value.symbols);
            && p < |a.instrs| && ops.Some? && Usable(ops.value)
            && var f := Fetch(code, Address(a.instrs, a.db, p));
            && f.Fetched? && Decodes(f.instr, l.opc, l.mode, ops.value)
  {
    LineLeaves(lines, j);
    Collected(lines[..j]);
    var l, at, st := lines[j], AfterAll(lines[..j]).value, AfterAll(lines).value;
    var a, p := InputOf(st), |at.instrs|;
    assert Shaped(a.instrs) && ValidLine(l);
    hide AfterAll, Output, Build, Fetch, Encode, Linked, WellFormed, Operands, Notes, Unreferenced, Decodes, Address;
    hide Bounded;
    NoNotes(l, p, at.symbols);
    LinkedPlain(at, l, st);
    var ops := Operands(l.mentions, at.symbols).value;
    var pre, post := OutputAround(a, head, code, p);
    BuiltDecodes(pre, post, l.opc, l.mode, ops);
  }

  /** A name that is declared in front of the instruction stands for its value, or for its size. */
  lemma NameMeans(lines: seq<Line>, j: nat, i: nat, size: bool, mem: bool)
    requires ValidLines(lines) && AfterAll(lines).Some? && i < j < |lines| && !lines[i].InstrLine?
    requires AfterAll(lines[..j]).Some? && (if size then lines[i].VarLine? else !lines[i].LabelLine?)
    ensures var a := OperandFor(Name(lines[i].name, size, mem), AfterAll(lines[..j]).value.symbols);
            && a.Some? && a.value.ImmOp? && a.value.mem == mem
            && a.value.value == match lines[i]
                                case VarLine(_, b) =>
                                  (if size then |b| else HEADER + |DataOf(lines[..i])|) % U32
                                case DefLine(_, v) => v % U32
                                case _ => 0
  {
    NameStays(lines[..j], i);
    assert lines[..j][..i] == lines[..i];
  }

  /** A literal stands for its signed value as far as 64 bits hold it, and gets the least size for its magnitude. */
  lemma NumberMeans(l: Literal, mem: bool, symbols: map<string, Symbol>)
    requires l.magnitude < U64
    ensures var a, v := OperandFor(Number(l, mem), symbols), if l.negative then -(l.magnitude as int) else l.magnitude;
            && a.Some? && a.value.ImmOp? && a.value.mem == mem && a.value.mode < 4
            && (a.value.value - v) % U64 == 0 && -0x8000_0000_0000_0000 <= a.value.value < 0x8000_0000_0000_0000
            && (l.magnitude < 0x8000_0000_0000_0000 ==> a.value.value == v)
            && (forall m :: 0 <= m < a.value.mode ==> !Fits(l.magnitude, SizeOf(m)))
            && (l.magnitude < 0x8000_0000_0000_0000 ==> Fits(l.magnitude, SizeOf(a.value.mode)))
  {
    forall m: nat | m < IntegerSize(l.magnitude) ensures !Fits(l.magnitude, SizeOf(m)) {
      SizeLeast(l.magnitude, m);
    }
    LiteralFits(l.magnitude, false);
  }
}
