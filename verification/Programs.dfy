/**
 Whole assembler programs: what a run of the assembler's statements leaves for the linker, and the theorem
 from the statements to the running machine.
 */
module Programs {
  import opened Basics
  import opened Bytes
  import opened Instructions
  import opened Assembler
  import opened Machine
  import opened Linking

  datatype Line = LabelLine(name: string)
                | InstrLine(opc: nat, mode: nat, mentions: seq<Mention>)
                | VarLine(name: string, bytes: seq<Byte>)
                | DefLine(name: string, value: nat)

  /** What the assembler has collected. */
  datatype Source = Source(instrs: seq<Instruction>, patches: seq<Patch>, symbols: map<string, Symbol>,
                           constants: seq<Byte>, main: nat)

  const NOTHING: Source := Source([], [], map[], [], 0)

  /** What the reader of the text makes sure of. */
  predicate ValidLine(l: Line) {
    match l
    case InstrLine(opc, mode, ms) =>
      opc < 64 && mode < 4 && |ms| <= 2 && forall k :: 0 <= k < |ms| ==> ValidMention(ms[k])
    case DefLine(_, v) => v < U64
    case _ => true
  }

  predicate ValidLines(lines: seq<Line>) {
    forall i :: 0 <= i < |lines| ==> ValidLine(lines[i])
  }

  /** One statement; none where it is an error. */
  function After(st: Source, l: Line): Option<Source>
    requires ValidLine(l)
  {
    match l
    case LabelLine(n) =>
      if n in st.symbols then None
      else Some(st.(symbols := st.symbols[n := Symbol(|st.instrs|, 0, Label)],
                    main := if n <= "main" then |st.instrs| else st.main))
    case VarLine(n, b) =>
      if n in st.symbols then None
      else Some(st.(symbols := st.symbols[n := Symbol(|st.constants| + HEADER, |b|, Var)],
                    constants := st.constants + b))
    case DefLine(n, v) =>
      if n in st.symbols then None else Some(st.(symbols := st.symbols[n := Symbol(v, 0, Tag.Define)]))
    case InstrLine(opc, mode, ms) =>
      match Operands(ms, st.symbols)
      case None => None
      case Some(ops) =>
        Some(st.(instrs := st.instrs + [Build(opc, mode, ops)],
                 patches := st.patches + Notes(ms, |st.instrs|, st.symbols)))
  }

  function AfterAll(lines: seq<Line>): Option<Source>
    requires ValidLines(lines)
  {
    if lines == [] then Some(NOTHING)
    else
      match AfterAll(lines[..|lines| - 1])
      case None => None
      case Some(st) => After(st, lines[|lines| - 1])
  }

  function InputOf(st: Source): AsmInput {
    AsmInput(st.instrs, st.patches, st.symbols, HEADER + |st.constants|)
  }

  // ---------------------------------------------------------------------------------------------
  // References in last place
  // ---------------------------------------------------------------------------------------------

  predicate SizedMention(m: Mention) {
    ValidMention(m) && (m.Operand? ==> SizedOperand(m.operand))
  }

  predicate HasOffset(m: Mention) {
    m.Operand? && m.operand.RegOp? && m.operand.mem && m.operand.offset.Some?
  }

  /**
   A reference to a label is the last operand of its instruction; and no offset stands behind a literal,
   which would be added to it.
   */
  predicate GoodLine(l: Line, symbols: map<string, Symbol>) {
    l.InstrLine? ==>
      && (forall k :: 0 <= k < |l.mentions| ==> SizedMention(l.mentions[k]))
      && (forall k :: 0 <= k < |l.mentions| - 1 ==> !IsReference(l.mentions[k], symbols))
      && (|l.mentions| == 2 && HasOffset(l.mentions[1]) ==> l.mentions[0].Operand? && l.mentions[0].operand.RegOp?)
  }

  predicate GoodLines(lines: seq<Line>)
    requires ValidLines(lines)
  {
    forall i :: 0 <= i < |lines| && AfterAll(lines[..i]).Some? ==>
        GoodLine(lines[i], AfterAll(lines[..i]).value.symbols)
  }

  /** Every reference is the only one of its instruction, in a zero immediate of the word size. */
  ghost predicate Noted(st: Source) {
    && AllWellFormed(st.instrs) && Sized(InputOf(st))
    && (forall k :: 0 <= k < |st.patches| ==> st.patches[k].pos < |st.instrs| && st.instrs[st.patches[k].pos].ii == 0)
    && (forall j, k :: 0 <= j < k < |st.patches| ==> st.patches[j].pos != st.patches[k].pos)
  }

  lemma SymbolSized(value: nat, mem: bool)
    requires value < U32
    ensures ValidOperand(SymbolOperand(value, mem)) && SizedOperand(SymbolOperand(value, mem))
  {
    LiteralFits(value, false);
    assert Signed64(value) == value;
    if value == 0 {
      WordFits(0);
    }
  }

  lemma MentionSized(m: Mention, symbols: map<string, Symbol>)
    requires SizedMention(m) && OperandFor(m, symbols).Some?
    ensures ValidOperand(OperandFor(m, symbols).value) && SizedOperand(OperandFor(m, symbols).value)
  {
    match m {
      case Operand(_) =>
      case Number(l, mem) => LiteralSized(l, mem);
      case Name(n, size, mem) =>
        if size {
          SymbolSized(symbols[n].size % U32, mem);
        } else {
          SymbolSized(if n in symbols && symbols[n].tag != Label then symbols[n].id % U32 else 0, mem);
        }
    }
  }

  /** The instruction of a good line: what it encodes fits, and its reference, if any, has a word for it. */
  lemma GoodInstruction(l: Line, pos: nat, symbols: map<string, Symbol>)
    requires l.InstrLine? && ValidLine(l) && GoodLine(l, symbols) && Operands(l.mentions, symbols).Some?
    ensures var i, notes := Build(l.opc, l.mode, Operands(l.mentions, symbols).value), Notes(l.mentions, pos, symbols);
            && WellFormed(i) && |notes| <= 1 && (notes == [] ==> ImmediateFits(i))
            && (notes != [] ==> notes[0].pos == pos && i.rmd && !i.iea && i.ims == SZ_WORD && i.ii == 0)
  {
    var ms, ops := l.mentions, Operands(l.mentions, symbols).value;
    OperandsOf(ms, pos, symbols);
    forall k | 0 <= k < |ms| ensures ValidOperand(ops[k]) && SizedOperand(ops[k]) {
      MentionSized(ms[k], symbols);
    }
    BuildWellFormed(l.opc, l.mode, ops);
    if ms != [] && IsReference(ms[|ms| - 1], symbols) {
      ReferenceIsAWord(l.opc, l.mode, ms, pos, symbols);
    } else {
      hide Build, Fits;
      assert Notes(ms, pos, symbols) == [];
      BuildFits(l.opc, l.mode, ops);
    }
  }

  /** What further notes on instruction `at` are about. */
  lemma PatchedMore(patches: seq<Patch>, notes: seq<Patch>, at: nat)
    requires |notes| <= 1 && (notes != [] ==> notes[0].pos == at)
    requires forall k :: 0 <= k < |patches| ==> patches[k].pos < at
    ensures forall p :: 0 <= p < at ==> (Patched(patches + notes, p) <==> Patched(patches, p))
    ensures Patched(patches + notes, at) <==> notes != []
  {
    var all := patches + notes;
    assert notes != [] ==> all[|patches|] == notes[0];
    assert forall k :: 0 <= k < |patches| ==> all[k] == patches[k];
    forall p | 0 <= p < at && Patched(patches, p) ensures Patched(all, p) {
      var k :| 0 <= k < |patches| && patches[k].pos == p;
      assert all[k].pos == p;
    }
  }

  lemma InputIs(st: Source)
    ensures InputOf(st).instrs == st.instrs && InputOf(st).patches == st.patches
  {
  }

  lemma NotedInstr(st: Source, i: Instruction, notes: seq<Patch>)
    requires Noted(st) && WellFormed(i) && |notes| <= 1 && (notes == [] ==> ImmediateFits(i))
    requires notes != [] ==> notes[0].pos == |st.instrs| && i.rmd && !i.iea && i.ims == SZ_WORD && i.ii == 0
    ensures Noted(st.(instrs := st.instrs + [i], patches := st.patches + notes))
  {
    hide WellFormed, ImmediateFits, InputOf, Patched;
    var n := st.(instrs := st.instrs + [i], patches := st.patches + notes);
    InputIs(st);
    InputIs(n);
    PatchedMore(st.patches, notes, |st.instrs|);
  }

  lemma NotedStep(st: Source, l: Line)
    requires Noted(st) && ValidLine(l) && GoodLine(l, st.symbols) && After(st, l).Some?
    ensures Noted(After(st, l).value)
  {
    hide GoodLine, Build, Operands, Notes, WellFormed, ImmediateFits;
    if l.InstrLine? {
      GoodInstruction(l, |st.instrs|, st.symbols);
      NotedInstr(st, Build(l.opc, l.mode, Operands(l.mentions, st.symbols).value),
                 Notes(l.mentions, |st.instrs|, st.symbols));
    }
  }

  lemma NothingNoted()
    ensures Noted(NOTHING)
  {
  }

  lemma {:induction false} NotedAll(lines: seq<Line>)
    requires ValidLines(lines) && GoodLines(lines) && AfterAll(lines).Some?
    ensures Noted(AfterAll(lines).value)
    decreases |lines|
  {
    hide GoodLine, After, Noted;
    if lines == [] {
      NothingNoted();
    } else {
      var before := lines[..|lines| - 1];
      forall i | 0 <= i < |before| && AfterAll(before[..i]).Some?
        ensures GoodLine(before[i], AfterAll(before[..i]).value.symbols)
      {
        assert before[..i] == lines[..i];
      }
      NotedAll(before);
      NotedStep(AfterAll(before).value, lines[|lines| - 1]);
    }
  }

  // ---------------------------------------------------------------------------------------------
  // From the statements to the machine
  // ---------------------------------------------------------------------------------------------

  /** Every reference is to a label, and an instruction follows the label. */
  predicate NamesResolved(st: Source) {
    forall k :: 0 <= k < |st.patches| ==>
      var t := TargetOf(st.symbols, st.patches[k].name); t.Some? && t.value < |st.instrs|
  }

  lemma NotedResolved(st: Source)
    requires Noted(st) && NamesResolved(st)
    ensures Resolved(InputOf(st)) && Sized(InputOf(st)) && AllWellFormed(st.instrs) &&
            AllDefined(st.patches, st.symbols)
  {
    hide WellFormed, Sized;
  }

  /** From the address in the code's header on, any number of steps of the bytes is that of the symbolic program. */
  ghost predicate RunsLike(a: AsmInput, code: seq<Byte>)
    requires AllWellFormed(a.instrs) && Resolved(a) && |code| >= HEADER
  {
    forall s: State, n: nat :: s.Valid() && !s.halted && Reg(s, IP) == GetU(code[8..12]) ==>
        Matches(a, SymRun(a, s, 0, n), Run(code, s, n))
  }

  lemma OutputRuns(st: Source, code: seq<Byte>)
    requires Noted(st) && NamesResolved(st) && HEADER <= |code| < 0x8000_0000 && st.main <= |st.instrs|
    requires var a := InputOf(st);
             AllWellFormed(Linked(a)) && code == Header(|code|, a.db, st.main) + st.constants + EncodeAll(Linked(a))
    ensures AllWellFormed(st.instrs) && Resolved(InputOf(st)) && RunsLike(InputOf(st), code)
  {
    NotedResolved(st);
    hide Noted, NamesResolved, Resolved, Sized, Matches, SymRun, Run, Reg, Linked, Header, EncodeAll, AllWellFormed;
    var a := InputOf(st);
    forall s: State, n: nat | s.Valid() && !s.halted && Reg(s, IP) == GetU(code[8..12])
      ensures Matches(a, SymRun(a, s, 0, n), Run(code, s, n))
    {
      LinkerOutputSimulates(a, st.main, st.constants, code, s, n);
    }
  }

  /** The context holds just what has been collected. */
  ghost predicate Holds(ctx: AssemblerCtx, st: Source)
    reads ctx
  {
    ctx.instructions == st.instrs && ctx.patchWork == st.patches && ctx.symbols == st.symbols &&
    ctx.constants == st.constants && ctx.main == st.main
  }

  method DoLine(ctx: AssemblerCtx, l: Line, ghost was: Option<Source>)
    requires ctx.Valid() && ValidLine(l)
    requires (ctx.errors == 0 <==> was.Some?) && (was.Some? ==> Holds(ctx, was.value))
    modifies ctx
    ensures ctx.Valid()
    ensures ctx.errors == 0 <==> was.Some? && After(was.value, l).Some?
    ensures ctx.errors == 0 ==> Holds(ctx, After(was.value, l).value)
  {
    hide Build, Operands, Notes, WellFormed;
    match l {
      case LabelLine(n) => var ok := ctx.ParseLabel(n);
      case VarLine(n, b) => var ok := ctx.DeclareVariable(n, b);
      case DefLine(n, v) => var ok := ctx.Define(n, v);
      case InstrLine(opc, mode, ms) => var ok := ctx.ParseInstruction(opc, mode, ms);
    }
  }

  /**
   Assembler_assemble on the statements of a program. It succeeds exactly when no statement is an error and no
   name is undefined. With references in last place, to labels that an instruction follows, and in less than
   2^31 bytes, the code runs like the program by instruction index.
   */
  method Assemble(lines: seq<Line>) returns (ok: bool, code: CodeVector)
    requires ValidLines(lines)
    ensures ok <==> AfterAll(lines).Some? && AllDefined(AfterAll(lines).value.patches, AfterAll(lines).value.symbols)
    ensures !ok ==> code.data == []
    ensures ok ==> var st, a := AfterAll(lines).value, InputOf(AfterAll(lines).value);
                   AllWellFormed(st.instrs) && AllWellFormed(Linked(a)) &&
                   code.data == Header(|code.data|, a.db, st.main) + st.constants + EncodeAll(Linked(a))
    ensures ok && |code.data| < U32 ==>
              var st := AfterAll(lines).value;
              Tells(code.data, HEADER + |st.constants|, HEADER + |st.constants| + st.main)
    ensures ok && GoodLines(lines) && NamesResolved(AfterAll(lines).value) && |code.data| < 0x8000_0000 ==>
              Resolved(InputOf(AfterAll(lines).value)) && RunsLike(InputOf(AfterAll(lines).value), code.data)
  {
    hide After, Linked, EncodeAll, Header, GoodLines, NamesResolved, RunsLike, Resolved, WellFormed, AllDefined;
    var ctx := new AssemblerCtx();
    var i := 0;
    while i < |lines|
      invariant 0 <= i <= |lines| && ctx.Valid() && fresh(ctx)
      invariant ctx.errors == 0 <==> AfterAll(lines[..i]).Some?
      invariant ctx.errors == 0 ==> Holds(ctx, AfterAll(lines[..i]).value)
    {
      ghost var was := AfterAll(lines[..i]);
      assert lines[..i + 1][..i] == lines[..i] && lines[..i + 1][i] == lines[i];
      DoLine(ctx, lines[i], was);
      i := i + 1;
    }
    assert lines[..|lines|] == lines;
    code := new CodeVector();
    ghost var before := ctx.errors;
    var length := ctx.Link(code);
    ok := ctx.errors == 0;
    if ok && GoodLines(lines) && NamesResolved(AfterAll(lines).value) && |code.data| < 0x8000_0000 {
      NotedAll(lines);
      OutputRuns(AfterAll(lines).value, code.data);
    }
  }

  /**
   The entry that the header names is an instruction index added to an address: it is the address of the entry
   instruction exactly when all instructions in front of it are of one byte.
   */
  lemma {:induction false} EntryExact(instrs: seq<Instruction>, db: nat, main: nat)
    requires AllWellFormed(instrs) && main <= |instrs|
    ensures Address(instrs, db, main) >= db + main
    ensures Address(instrs, db, main) == db + main <==> forall k :: 0 <= k < main ==> Length(instrs[k]) == 1
  {
    if main > 0 {
      EntryExact(instrs, db, main - 1);
      assert WellFormed(instrs[main - 1]);
    }
  }
}
