/**
 The assembler back end: how a parsed instruction gets its size fields, how labels and references
 are recorded, and how Assembler_link turns references into displacements in one pass.
 */
module Assembler {
  import opened Basics
  import Arithmetic
  import opened Bytes
  import opened Instructions

  const SZ_WORD: nat := 2
  const HEADER: nat := 16

  datatype Tag = Label | Var | Define

  datatype Symbol = Symbol(id: nat, size: nat, tag: Tag)

  /** A reference to `name` by the instruction at index `pos`, to be resolved by the linker. */
  datatype Patch = Patch(pos: nat, name: string)

  // ---------------------------------------------------------------------------------------------
  // Instructions from operands
  // ---------------------------------------------------------------------------------------------

  datatype Literal = Literal(magnitude: nat, negative: bool) {
    function Value(): int {
      Signed64(if negative then -(magnitude as int) else magnitude)
    }
  }

  /** An operand whose symbols have been looked up. */
  datatype Operand = RegOp(reg: nat, mem: bool, offset: Option<Literal>) | ImmOp(value: int, mode: nat, mem: bool)

  predicate ValidOperand(a: Operand) {
    match a
    case RegOp(r, _, o) => r < 10 && (o.Some? ==> o.value.magnitude < 0x1_0000_0000_0000_0000)
    case ImmOp(_, m, _) => m < 4
  }

  function LiteralOperand(l: Literal, mem: bool): Operand {
    ImmOp(l.Value(), IntegerSize(l.magnitude), mem)
  }

  /** An immediate from a symbol: the word size for 0, which is also what an unresolved label gives. */
  function SymbolOperand(value: nat, mem: bool): Operand {
    ImmOp(value, if value == 0 then SZ_WORD else IntegerSize(value), mem)
  }

  /** Assembler_parse_instruction_arg: what one operand does to the instruction. */
  function WithOperand(i: Instruction, a: Operand, second: bool): Instruction {
    match a
    case ImmOp(v, m, _) => i.(rmd := true, ii := v, ims := m)
    case RegOp(_, mem, o) =>
      if mem && second && o.Some? then
        i.(rmd := false, iea := true, ims := IntegerSize(o.value.magnitude), ii := i.ii + o.value.Value())
      else
        i.(rmd := false)
  }

  /** Assembler_parse_instruction for 0, 1 or 2 operands. */
  function Build(opc: nat, mode: nat, operands: seq<Operand>): (i: Instruction)
    requires |operands| <= 2
  {
    var i0 := BLANK.(osz := |operands| + 1, opc := opc, imd := mode);
    if |operands| == 0 then
      i0
    else
      var a := operands[0];
      var i1 := WithOperand(i0, a, false).(iam := a.mem);
      var i2 := i1.(ra := if i1.rmd then i1.ims else a.reg);
      if |operands| == 1 then
        i2
      else
        var b := operands[1];
        WithOperand(i2, b, true).(ibm := b.mem, rb := if b.RegOp? then b.reg else 0)
  }

  /** Every instruction the parser builds satisfies what the encoder and the decoders rely on. */
  lemma BuildWellFormed(opc: nat, mode: nat, operands: seq<Operand>)
    requires |operands| <= 2 && opc < 64 && mode < 4 && forall k :: 0 <= k < |operands| ==> ValidOperand(operands[k])
    ensures WellFormed(Build(opc, mode, operands))
  {
  }

  /** The immediate that an instruction encodes is sized to hold it. */
  predicate SizedOperand(a: Operand)
    requires ValidOperand(a)
  {
    a.ImmOp? ==> Fits(a.value, SizeOf(a.mode))
  }

  lemma LiteralSized(l: Literal, mem: bool)
    requires l.magnitude < 0x1_0000_0000_0000_0000
    ensures ValidOperand(LiteralOperand(l, mem)) && SizedOperand(LiteralOperand(l, mem))
  {
    LiteralFits(l.magnitude, l.negative);
  }

  /**
   The immediate that is encoded fits its size. The one exception is an offset behind an immediate first
   operand, to which the parser adds it.
   */
  lemma BuildFits(opc: nat, mode: nat, operands: seq<Operand>)
    requires |operands| <= 2 && opc < 64 && mode < 4
    requires forall k :: 0 <= k < |operands| ==> ValidOperand(operands[k]) && SizedOperand(operands[k])
    requires |operands| == 2 && operands[0].ImmOp? ==>
             !(operands[1].RegOp? && operands[1].mem && operands[1].offset.Some?)
    ensures Build(opc, mode, operands).ims < 4 && ImmediateFits(Build(opc, mode, operands))
  {
    if |operands| == 2 && operands[1].RegOp? && operands[1].offset.Some? {
      LiteralFits(operands[1].offset.value.magnitude, operands[1].offset.value.negative);
    }
  }

  // ---------------------------------------------------------------------------------------------
  // What linking means
  // ---------------------------------------------------------------------------------------------

  /** The instruction index a name is a label for. */
  function TargetOf(symbols: map<string, Symbol>, name: string): Option<nat> {
    if name in symbols && symbols[name].tag == Label then Some(symbols[name].id) else None
  }

  /** The positions of the references to label index `t`, in order. */
  function RefsTo(patches: seq<Patch>, symbols: map<string, Symbol>, t: nat): seq<nat> {
    if patches == [] then
      []
    else
      var k := |patches| - 1;
      var before := RefsTo(patches[..k], symbols, t);
      if TargetOf(symbols, patches[k].name) == Some(t) then before + [patches[k].pos] else before
  }

  function Count(s: seq<nat>, p: nat): nat {
    if s == [] then 0 else Count(s[..|s| - 1], p) + if s[|s| - 1] == p then 1 else 0
  }

  predicate Patched(patches: seq<Patch>, p: nat) {
    exists k :: 0 <= k < |patches| && patches[k].pos == p
  }

  predicate AllDefined(patches: seq<Patch>, symbols: map<string, Symbol>) {
    forall k :: 0 <= k < |patches| ==> patches[k].name in symbols
  }

  lemma DefinedPush(patches: seq<Patch>, p: Patch, symbols: map<string, Symbol>)
    ensures AllDefined(patches + [p], symbols) <==> AllDefined(patches, symbols) && p.name in symbols
  {
    if AllDefined(patches + [p], symbols) {
      forall k | 0 <= k < |patches|
        ensures patches[k].name in symbols
      {
        assert (patches + [p])[k] == patches[k];
      }
      assert (patches + [p])[|patches|] == p;
    }
  }

  predicate Shaped(s: seq<Instruction>) {
    forall k :: 0 <= k < |s| ==> s[k].ims < 4
  }

  datatype AsmInput = AsmInput(instrs: seq<Instruction>, patches: seq<Patch>, symbols: map<string, Symbol>, db: nat)

  /** The target addresses that the pass has added to instruction `p` before it reaches instruction `i`. */
  function Added(a: AsmInput, p: nat, i: nat): nat
    requires Shaped(a.instrs) && i <= |a.instrs|
  {
    if i == 0 then 0
    else
      Added(a, p, i - 1) + Address(a.instrs, a.db, i - 1) * Count(RefsTo(a.patches, a.symbols, i - 1), p)
  }

  /** The immediate of instruction `p` when the pass has done instructions 0 to i - 1. */
  function ImmediateAfter(a: AsmInput, p: nat, i: nat): int
    requires Shaped(a.instrs) && p < |a.instrs| && i <= |a.instrs|
  {
    a.instrs[p].ii + Added(a, p, i) - if p < i && Patched(a.patches, p) then Address(a.instrs, a.db, p) else 0
  }

  function Linked(a: AsmInput): (s: seq<Instruction>)
    requires Shaped(a.instrs)
    ensures |s| == |a.instrs|
  {
    seq(|a.instrs|, p requires 0 <= p < |a.instrs| => a.instrs[p].(ii := ImmediateAfter(a, p, |a.instrs|)))
  }

  /** The two instruction sequences differ in immediate values only. */
  predicate SameShape(s: seq<Instruction>, t: seq<Instruction>) {
    |s| == |t| && forall k :: 0 <= k < |s| ==> t[k] == s[k].(ii := t[k].ii)
  }

  lemma {:induction false} AddressSameShape(s: seq<Instruction>, t: seq<Instruction>, base: nat, k: nat)
    requires SameShape(s, t) && Shaped(s) && k <= |s|
    ensures Address(t, base, k) == Address(s, base, k)
    decreases k
  {
    if k > 0 {
      AddressSameShape(s, t, base, k - 1);
      assert t[k - 1] == s[k - 1].(ii := t[k - 1].ii);
    }
  }

  // ---------------------------------------------------------------------------------------------
  // The assembler context
  // ---------------------------------------------------------------------------------------------

  datatype Mention = Operand(operand: Operand)
                   | Number(literal: Literal, mem: bool)
                   | Name(name: string, size: bool, mem: bool)

  predicate ValidMention(m: Mention) {
    && (m.Number? ==> m.literal.magnitude < U64)
    && (m.Operand? ==> ValidOperand(m.operand))
  }

  /** The operand that a mention stands for with the symbols known so far; none for a size that is not known. */
  function OperandFor(m: Mention, symbols: map<string, Symbol>): Option<Operand> {
    match m
    case Operand(o) => Some(o)
    case Number(l, mem) => Some(LiteralOperand(l, mem))
    case Name(n, size, mem) =>
      if size then
        if n in symbols && symbols[n].tag == Var then Some(SymbolOperand(symbols[n].size % U32, mem)) else None
      else
        Some(SymbolOperand(if n in symbols && symbols[n].tag != Label then symbols[n].id % U32 else 0, mem))
  }

  /** The references that a mention leaves for the linker. */
  function NotesFor(m: Mention, pos: nat, symbols: map<string, Symbol>): seq<Patch> {
    if m.Name? && !m.size && !(m.name in symbols && symbols[m.name].tag != Label) then [Patch(pos, m.name)] else []
  }

  function Operands(ms: seq<Mention>, symbols: map<string, Symbol>): (r: Option<seq<Operand>>)
    ensures r.Some? ==> |r.value| == |ms|
  {
    if ms == [] then Some([])
    else
      var before := Operands(ms[..|ms| - 1], symbols);
      var last := OperandFor(ms[|ms| - 1], symbols);
      if before.Some? && last.Some? then Some(before.value + [last.value]) else None
  }

  function Notes(ms: seq<Mention>, pos: nat, symbols: map<string, Symbol>): seq<Patch> {
    if ms == [] then [] else Notes(ms[..|ms| - 1], pos, symbols) + NotesFor(ms[|ms| - 1], pos, symbols)
  }

  lemma NoOperands(ms: seq<Mention>, pos: nat, symbols: map<string, Symbol>)
    ensures ms == [] ==> Operands(ms, symbols) == Some([]) && Notes(ms, pos, symbols) == []
  {
  }

  lemma OperandsPush(ms: seq<Mention>, m: Mention, pos: nat, symbols: map<string, Symbol>)
    ensures Notes(ms + [m], pos, symbols) == Notes(ms, pos, symbols) + NotesFor(m, pos, symbols)
    ensures Operands(ms, symbols).Some? && OperandFor(m, symbols).Some? ==>
              Operands(ms + [m], symbols) == Some(Operands(ms, symbols).value + [OperandFor(m, symbols).value])
  {
    hide OperandFor, NotesFor;
    assert (ms + [m])[..|ms|] == ms;
  }

  lemma NotesAt(m: Mention, pos: nat, symbols: map<string, Symbol>)
    ensures forall k :: 0 <= k < |NotesFor(m, pos, symbols)| ==> NotesFor(m, pos, symbols)[k].pos == pos
  {
  }

  lemma OperandsRefused(ms: seq<Mention>, k: nat, symbols: map<string, Symbol>)
    requires k < |ms| && OperandFor(ms[k], symbols).None?
    ensures Operands(ms, symbols).None?
    decreases |ms|
  {
    if k < |ms| - 1 {
      OperandsRefused(ms[..|ms| - 1], k, symbols);
    }
  }

  /** The mention is a reference that the linker has to resolve. */
  predicate IsReference(m: Mention, symbols: map<string, Symbol>) {
    m.Name? && !m.size && !(m.name in symbols && symbols[m.name].tag != Label)
  }

  lemma OperandsOf(ms: seq<Mention>, pos: nat, symbols: map<string, Symbol>)
    requires Operands(ms, symbols).Some?
    ensures forall k :: 0 <= k < |ms| ==> OperandFor(ms[k], symbols) == Some(Operands(ms, symbols).value[k])
    ensures |ms| == 0 ==> Notes(ms, pos, symbols) == []
    ensures |ms| == 1 ==> Notes(ms, pos, symbols) == NotesFor(ms[0], pos, symbols)
    ensures |ms| == 2 ==> Notes(ms, pos, symbols) == NotesFor(ms[0], pos, symbols) + NotesFor(ms[1], pos, symbols)
  {
    if ms != [] {
      OperandsOf(ms[..|ms| - 1], pos, symbols);
    }
  }

  /**
   An instruction whose last operand is a reference to a label, or to a name that is not yet known, has a
   zero immediate of the word size, and the reference is the last note it leaves.
   */
  lemma ReferenceIsAWord(opc: nat, mode: nat, ms: seq<Mention>, pos: nat, symbols: map<string, Symbol>)
    requires 1 <= |ms| <= 2 && Operands(ms, symbols).Some? && IsReference(ms[|ms| - 1], symbols)
    ensures var i := Build(opc, mode, Operands(ms, symbols).value);
            i.rmd && !i.iea && i.ims == SZ_WORD && i.ii == 0 && i.osz == |ms| + 1
    ensures Notes(ms, pos, symbols) ==
            (if |ms| == 2 then NotesFor(ms[0], pos, symbols) else []) + [Patch(pos, ms[|ms| - 1].name)]
  {
    OperandsOf(ms, pos, symbols);
  }

  function Zeros(n: nat): (s: seq<Byte>)
    ensures |s| == n
  {
    seq(n, _ => 0)
  }

  /** The code header: total size, end of the constants, and entry. */
  function Header(size: nat, db: nat, main: nat): (s: seq<Byte>)
    ensures |s| == HEADER
  {
    Put(size, 8) + Put(db, 4) + Put(db + main, 4)
  }

  lemma WordRange()
    ensures Pow256(4) == U32 && Pow256(8) == U64
  {
    assert Pow256(1) == 0x100 && Pow256(2) == 0x1_0000 && Pow256(3) == 0x100_0000 && Pow256(4) == 0x1_0000_0000;
    assert Pow256(5) == 0x100_0000_0000 && Pow256(6) == 0x1_0000_0000_0000 && Pow256(7) == 0x100_0000_0000_0000;
  }

  /** Code tells its size in its first 8 bytes, the end of its constants in the next 4, and its entry in the next. */
  ghost predicate Tells(code: seq<Byte>, db: nat, entry: nat) {
    && |code| >= HEADER && GetU(code[..8]) == |code|
    && GetU(code[8..12]) == db && GetU(code[12..16]) == entry
  }

  lemma HeaderTells(size: nat, db: nat, main: nat, rest: seq<Byte>)
    requires size < U32 && db + main < U32 && size == HEADER + |rest|
    ensures Tells(Header(size, db, main) + rest, db, db + main)
  {
    WordRange();
    GetUPut(size, 8);
    GetUPut(db, 4);
    GetUPut(db + main, 4);
    hide Put, GetU, Pow256;
    var code := Header(size, db, main) + rest;
    assert code[..8] == Put(size, 8) && code[8..12] == Put(db, 4) && code[12..16] == Put(db + main, 4);
  }

  lemma {:induction false} EncodeAllSize(s: seq<Instruction>)
    requires AllWellFormed(s)
    ensures |EncodeAll(s)| >= |s|
  {
    if s != [] {
      EncodeAllSize(s[1..]);
    }
  }

  /** What the linker writes tells the number of its bytes, of the bytes in front of its instructions, and the entry. */
  lemma OutputTells(main: nat, constants: seq<Byte>, s: seq<Instruction>, size: nat)
    requires AllWellFormed(s) && main <= |s| && size == HEADER + |constants| + |EncodeAll(s)| < U32
    ensures Tells(Header(size, HEADER + |constants|, main) + constants + EncodeAll(s),
                  HEADER + |constants|, HEADER + |constants| + main)
  {
    EncodeAllSize(s);
    var head, bytes := Header(size, HEADER + |constants|, main), EncodeAll(s);
    hide *;
    assert head + constants + bytes == head + (constants + bytes);
    HeaderTells(size, HEADER + |constants|, main, constants + bytes);
  }

  lemma {:induction false} RefsBounded(patches: seq<Patch>, symbols: map<string, Symbol>, t: nat, n: nat)
    requires forall k :: 0 <= k < |patches| ==> patches[k].pos < n
    ensures forall k :: 0 <= k < |RefsTo(patches, symbols, t)| ==> RefsTo(patches, symbols, t)[k] < n
  {
    if patches != [] {
      RefsBounded(patches[..|patches| - 1], symbols, t, n);
    }
  }

  /** `t` is `s` with `ip` added to an immediate for every occurrence of its position in `list`. */
  ghost predicate AddedTo(s: seq<Instruction>, t: seq<Instruction>, list: seq<nat>, ip: nat) {
    SameShape(s, t) && forall p :: 0 <= p < |s| ==> t[p].ii == s[p].ii + ip * Count(list, p)
  }

  lemma NothingAdded(s: seq<Instruction>, ip: nat)
    ensures AddedTo(s, s, [], ip)
  {
    forall p | 0 <= p < |s| ensures s[p].ii == s[p].ii + ip * Count([], p) {
      Arithmetic.MulOneMore(ip, 0);
    }
  }

  lemma OneMoreAdded(s: seq<Instruction>, t: seq<Instruction>, list: seq<nat>, j: nat, ip: nat)
    requires AddedTo(s, t, list, ip) && j < |t|
    ensures AddedTo(s, t[j := t[j].(ii := t[j].ii + ip)], list + [j], ip)
  {
    forall p | 0 <= p < |s| ensures ip * Count(list + [j], p) == ip * Count(list, p) + if p == j then ip else 0 {
      assert (list + [j])[..|list|] == list;
      Arithmetic.MulOneMore(ip, Count(list, p));
    }
  }

  /** The instructions when the pass has done the first `i`. */
  ghost predicate InProgress(a: AsmInput, s: seq<Instruction>, i: nat)
    requires Shaped(a.instrs) && i <= |a.instrs|
  {
    |s| == |a.instrs| && forall p :: 0 <= p < |s| ==> s[p] == a.instrs[p].(ii := ImmediateAfter(a, p, i))
  }

  lemma StartImmediates(a: AsmInput)
    requires AllWellFormed(a.instrs)
    ensures Shaped(a.instrs) && InProgress(a, a.instrs, 0)
  {
  }

  lemma EndImmediates(a: AsmInput, s: seq<Instruction>)
    requires Shaped(a.instrs) && InProgress(a, s, |a.instrs|)
    ensures s == Linked(a)
  {
  }

  lemma StepImmediates(a: AsmInput, i: nat, before: seq<Instruction>, middle: seq<Instruction>, after: seq<Instruction>)
    requires Shaped(a.instrs) && i < |a.instrs| && InProgress(a, before, i)
    requires middle == (if Patched(a.patches, i)
                        then before[i := before[i].(ii := before[i].ii - Address(a.instrs, a.db, i))] else before)
    requires AddedTo(middle, after, RefsTo(a.patches, a.symbols, i), Address(a.instrs, a.db, i))
    ensures |after| == |a.instrs| && InProgress(a, after, i + 1)
    ensures after[i].osz == a.instrs[i].osz && after[i].rmd == a.instrs[i].rmd
    ensures after[i].iea == a.instrs[i].iea && after[i].ims == a.instrs[i].ims
  {
    forall p | 0 <= p < |after|
      ensures after[p] == a.instrs[p].(ii := ImmediateAfter(a, p, i + 1))
    {
      assert after[p] == middle[p].(ii := after[p].ii) && before[p] == a.instrs[p].(ii := ImmediateAfter(a, p, i));
    }
  }

  lemma LinkedWellFormed(a: AsmInput)
    requires AllWellFormed(a.instrs)
    ensures AllWellFormed(Linked(a)) && SameShape(a.instrs, Linked(a))
  {
  }

  class AssemblerCtx {
    var main: nat
    var constants: seq<Byte>
    var instructions: seq<Instruction>
    var symbols: map<string, Symbol>
    var patchWork: seq<Patch>
    var errors: nat

    ghost predicate Valid()
      reads this
    {
      && AllWellFormed(instructions) && main <= |instructions|
      && (errors == 0 ==> forall k :: 0 <= k < |patchWork| ==> patchWork[k].pos < |instructions|)
    }

    ghost function Input(db: nat): AsmInput
      reads this
    {
      AsmInput(instructions, patchWork, symbols, db)
    }

    constructor ()
      ensures Valid() && instructions == [] && patchWork == [] && errors == 0
      ensures symbols == map[] && constants == [] && main == 0
    {
      main, errors := 0, 0;
      constants, instructions, patchWork := [], [], [];
      symbols := map[];
    }

    /** Assembler_parse_label: an error when the name is taken. A prefix of "main" also marks the entry. */
    method ParseLabel(name: string) returns (ok: bool)
      requires Valid()
      modifies this`symbols, this`main, this`errors
      ensures Valid() && errors == old(errors) + if ok then 0 else 1
      ensures ok <==> name !in old(symbols)
      ensures symbols == if ok then old(symbols)[name := Symbol(|instructions|, 0, Label)] else old(symbols)
      ensures main == if ok && name <= "main" then |instructions| else old(main)
    {
      if name in symbols {
        errors := errors + 1;
        return false;
      }
      symbols := symbols[name := Symbol(|instructions|, 0, Label)];
      if name <= "main" {
        main := |instructions|;
      }
      return true;
    }

    /** Assembler_define */
    method Define(name: string, value: nat) returns (ok: bool)
      requires Valid() && value < U64
      modifies this`symbols, this`errors
      ensures Valid() && errors == old(errors) + if ok then 0 else 1
      ensures ok <==> name !in old(symbols)
      ensures symbols == if ok then old(symbols)[name := Symbol(value, 0, Tag.Define)] else old(symbols)
    {
      if name in symbols {
        errors := errors + 1;
        return false;
      }
      symbols := symbols[name := Symbol(value, 0, Tag.Define)];
      return true;
    }

    /** Assembler_parse_var_decl with the bytes of the initializer: the variable's address is behind the header. */
    method DeclareVariable(name: string, bytes: seq<Byte>) returns (ok: bool)
      requires Valid()
      modifies this`symbols, this`constants, this`errors
      ensures Valid() && errors == old(errors) + if ok then 0 else 1
      ensures ok <==> name !in old(symbols)
      ensures constants == if ok then old(constants) + bytes else old(constants)
      ensures symbols == if ok then old(symbols)[name := Symbol(|old(constants)| + HEADER, |bytes|, Var)]
                         else old(symbols)
    {
      if name in symbols {
        errors := errors + 1;
        return false;
      }
      symbols := symbols[name := Symbol(|constants| + HEADER, |bytes|, Var)];
      constants := constants + bytes;
      return true;
    }

    /** The 32-bit value of a variable or constant that is already known, or 0 and a note for the linker. */
    method AddSymbolReference(name: string) returns (value: nat)
      modifies this`patchWork
      ensures name in symbols && symbols[name].tag != Label ==>
              value == symbols[name].id % U32 && patchWork == old(patchWork)
      ensures !(name in symbols && symbols[name].tag != Label) ==>
                value == 0 && patchWork == old(patchWork) + [Patch(|instructions|, name)]
    {
      if name !in symbols || symbols[name].tag == Label {
        patchWork := patchWork + [Patch(|instructions|, name)];
        return 0;
      }
      return symbols[name].id % U32;
    }

    method LookUp(mention: Mention) returns (a: Option<Operand>)
      requires ValidMention(mention)
      modifies this`patchWork
      ensures a == OperandFor(mention, symbols) && (a.Some? ==> ValidOperand(a.value))
      ensures patchWork == old(patchWork) + NotesFor(mention, |instructions|, symbols)
    {
      match mention {
        case Operand(o) =>
          return Some(o);
        case Number(l, m) =>
          return Some(LiteralOperand(l, m));
        case Name(n, size, m) =>
          if size {
            if n !in symbols || symbols[n].tag != Var {
              return None;
            }
            return Some(SymbolOperand(symbols[n].size % U32, m));
          }
          var v := AddSymbolReference(n);
          return Some(SymbolOperand(v, m));
      }
    }

    /** The operands of an instruction, up to the first one that is refused. */
    method ReadOperands(mentions: seq<Mention>) returns (r: Option<seq<Operand>>)
      requires forall k :: 0 <= k < |mentions| ==> ValidMention(mentions[k])
      requires Valid()
      modifies this`patchWork
      ensures r == Operands(mentions, symbols)
      ensures r.Some? ==> forall k :: 0 <= k < |mentions| ==> ValidOperand(r.value[k])
      ensures errors == 0 ==> forall k :: 0 <= k < |patchWork| ==> patchWork[k].pos <= |instructions|
      ensures old(patchWork) <= patchWork
      ensures r.Some? ==> patchWork == old(patchWork) + Notes(mentions, |instructions|, symbols)
    {
      hide OperandFor, NotesFor, WellFormed, AllWellFormed, ValidMention, ValidOperand, Operands, Notes;
      var operands := [];
      var k := 0;
      NoOperands(mentions[..0], |instructions|, symbols);
      while k < |mentions|
        invariant 0 <= k <= |mentions| && |operands| == k && Operands(mentions[..k], symbols) == Some(operands)
        invariant forall j :: 0 <= j < k ==> ValidOperand(operands[j])
        invariant errors == 0 ==> forall j :: 0 <= j < |patchWork| ==> patchWork[j].pos <= |instructions|
        invariant patchWork == old(patchWork) + Notes(mentions[..k], |instructions|, symbols)
      {
        NotesAt(mentions[k], |instructions|, symbols);
        var a := LookUp(mentions[k]);
        assert mentions[..k + 1] == mentions[..k] + [mentions[k]];
        OperandsPush(mentions[..k], mentions[k], |instructions|, symbols);
        if a.None? {
          OperandsRefused(mentions, k, symbols);
          return None;
        }
        operands := operands + [a.value];
        k := k + 1;
      }
      assert mentions[..|mentions|] == mentions;
      return Some(operands);
    }

    /** Assembler_parse_instruction: an error, and no instruction, when an operand is refused. */
    method ParseInstruction(opc: nat, mode: nat, mentions: seq<Mention>) returns (ok: bool)
      requires Valid() && opc < 64 && mode < 4 && |mentions| <= 2
      requires forall k :: 0 <= k < |mentions| ==> ValidMention(mentions[k])
      modifies this`instructions, this`patchWork, this`errors
      ensures Valid() && errors == old(errors) + if ok then 0 else 1
      ensures ok <==> Operands(mentions, symbols).Some?
      ensures ok ==> instructions == old(instructions) + [Build(opc, mode, Operands(mentions, symbols).value)]
      ensures ok ==> patchWork == old(patchWork) + Notes(mentions, |old(instructions)|, symbols)
      ensures !ok ==> instructions == old(instructions) && old(patchWork) <= patchWork
    {
      hide Build, WellFormed, OperandFor, NotesFor, Operands, Notes;
      var operands := ReadOperands(mentions);
      if operands.None? {
        errors := errors + 1;
        return false;
      }
      BuildWellFormed(opc, mode, operands.value);
      instructions := instructions + [Build(opc, mode, operands.value)];
      return true;
    }

    /** The lists of references, one for each label that is referred to. */
    method CollectReferences() returns (refs: map<nat, seq<nat>>, undefined: nat)
      ensures forall t ::
                && (t in refs ==> refs[t] == RefsTo(patchWork, symbols, t))
                && (t !in refs ==> RefsTo(patchWork, symbols, t) == [])
      ensures undefined == 0 <==> AllDefined(patchWork, symbols)
    {
      refs, undefined := map[], 0;
      var k := 0;
      while k < |patchWork|
        invariant 0 <= k <= |patchWork|
        invariant forall t ::
                    && (t in refs ==> refs[t] == RefsTo(patchWork[..k], symbols, t))
                    && (t !in refs ==> RefsTo(patchWork[..k], symbols, t) == [])
        invariant undefined == 0 <==> AllDefined(patchWork[..k], symbols)
      {
        var patch := patchWork[k];
        assert patchWork[..k + 1][..k] == patchWork[..k] && patchWork[..k + 1][k] == patch;
        assert AllDefined(patchWork[..k + 1], symbols) <==>
            AllDefined(patchWork[..k], symbols) && patch.name in symbols by {
          DefinedPush(patchWork[..k], patch, symbols);
          assert patchWork[..k + 1] == patchWork[..k] + [patch];
        }
        if patch.name !in symbols {
          undefined := undefined + 1;
        } else if symbols[patch.name].tag == Label {
          var t := symbols[patch.name].id;
          if t !in refs {
            refs := refs[t := []];
          }
          refs := refs[t := refs[t] + [patch.pos]];
        }
        k := k + 1;
      }
      assert patchWork[..|patchWork|] == patchWork;
    }

    /** The inner loop of Link: adds `ip` to every instruction that refers to the current one. */
    method AddAddress(list: seq<nat>, ip: nat)
      requires forall k :: 0 <= k < |list| ==> list[k] < |instructions|
      modifies this`instructions
      ensures AddedTo(old(instructions), instructions, list, ip)
    {
      hide AddedTo;
      var k := 0;
      NothingAdded(instructions, ip);
      while k < |list|
        invariant 0 <= k <= |list| && |instructions| == |old(instructions)|
        invariant AddedTo(old(instructions), instructions, list[..k], ip)
      {
        var j := list[k];
        assert list[..k + 1] == list[..k] + [j];
        OneMoreAdded(old(instructions), instructions, list[..k], j, ip);
        instructions := instructions[j := instructions[j].(ii := instructions[j].ii + ip)];
        k := k + 1;
      }
      assert list[..|list|] == list;
    }

    /** The body of the loop of Link: what instruction `i` refers to, and what refers to it. */
    method PatchAt(i: nat, ip: nat, list: seq<nat>, ghost a: AsmInput)
      requires Shaped(a.instrs) && i < |a.instrs| == |instructions| && InProgress(a, instructions, i)
      requires ip == Address(a.instrs, a.db, i) && a.patches == patchWork && list == RefsTo(a.patches, a.symbols, i)
      requires forall k :: 0 <= k < |patchWork| ==> patchWork[k].pos < |instructions|
      modifies this`instructions
      ensures |instructions| == |a.instrs| && InProgress(a, instructions, i + 1)
      ensures instructions[i].osz == a.instrs[i].osz && instructions[i].rmd == a.instrs[i].rmd
      ensures instructions[i].iea == a.instrs[i].iea && instructions[i].ims == a.instrs[i].ims
    {
      hide RefsTo, Count, Added, InProgress, AddedTo, ImmediateAfter, Address;
      ghost var before := instructions;
      if Patched(patchWork, i) {
        instructions := instructions[i := instructions[i].(ii := instructions[i].ii - ip)];
      }
      ghost var middle := instructions;
      RefsBounded(patchWork, a.symbols, i, |instructions|);
      AddAddress(list, ip);
      StepImmediates(a, i, before, middle, instructions);
    }

    /** Fills in the reserved header bytes. */
    method WriteHeader(code: CodeVector, db: nat)
      requires |code.data| >= HEADER
      modifies code
      ensures code.data == Header(|code.data|, db, main) + old(code.data)[HEADER..]
    {
      hide Put;
      var head := Put(|code.data|, 8) + Put(db, 4) + Put(db + main, 4);
      code.data := head + code.data[HEADER..];
    }

    /** The loop of Link over all instructions. */
    method PatchAll(db: nat, refs: map<nat, seq<nat>>)
      requires AllWellFormed(instructions)
      requires forall t ::
                 && (t in refs ==> refs[t] == RefsTo(patchWork, symbols, t))
                 && (t !in refs ==> RefsTo(patchWork, symbols, t) == [])
      requires forall k :: 0 <= k < |patchWork| ==> patchWork[k].pos < |instructions|
      modifies this`instructions
      ensures Shaped(old(instructions)) && instructions == Linked(old(Input(db)))
    {
      hide RefsTo, WellFormed, InProgress, Linked;
      ghost var a := Input(db);
      StartImmediates(a);
      hide AllWellFormed;
      var ip, i := db, 0;
      while i < |instructions|
        invariant 0 <= i <= |instructions| == |a.instrs| && Shaped(a.instrs)
        invariant ip == Address(a.instrs, db, i)
        invariant InProgress(a, instructions, i)
      {
        PatchAt(i, ip, if i in refs then refs[i] else [], a);
        ip := ip + instructions[i].osz;
        if instructions[i].rmd || instructions[i].iea {
          ip := ip + SizeOf(instructions[i].ims);
        }
        i := i + 1;
      }
      EndImmediates(a, instructions);
    }

    /**
     Assembler_link: patches the instructions and writes header, constants and instructions.
     With an undefined name, or an earlier error, it writes nothing.
     */
    method Link(code: CodeVector) returns (length: nat)
      requires Valid() && code.data == []
      modifies this`instructions, this`errors, code
      ensures old(errors) == 0 && AllDefined(patchWork, symbols) ==>
                var db := HEADER + |constants|;
                && errors == 0
                && instructions == Linked(old(Input(db))) && AllWellFormed(instructions)
                && code.data == Header(|code.data|, db, main) + constants + EncodeAll(instructions)
                && (|code.data| < U32 ==> Tells(code.data, db, db + main))
      ensures !(old(errors) == 0 && AllDefined(patchWork, symbols)) ==>
                instructions == old(instructions) && code.data == [] && errors > 0
      ensures length == |code.data|
    {
      hide RefsTo, WellFormed, EncodeAll, AllDefined, Linked, Header, Tells;
      var refs, undefined := CollectReferences();
      errors := errors + undefined;
      if errors > 0 {
        return 0;
      }
      code.data := Zeros(HEADER) + constants;
      var db := |code.data|;
      LinkedWellFormed(Input(db));
      PatchAll(db, refs);
      code.Append(instructions);
      WriteHeader(code, db);
      if |code.data| < U32 {
        OutputTells(main, constants, instructions, |code.data|);
      }
      return |code.data|;
    }
  }
}
