/**
 The instruction format: the encoder that appends instructions to the code vector, the decoder of
 the running machine, and the second decoder that the disassembler walks with.
 */
module Instructions {
  import opened Basics
  import opened Bytes

  /** `rmd` and `iea` say that an immediate follows; `ims` is its size, `ii` its value. */
  datatype Instruction = Instruction(osz: nat, opc: nat,
                                     ra: nat, iam: bool, rmd: bool, imd: nat,
                                     ims: nat, rb: nat, ibm: bool, iea: bool,
                                     ii: int)

  const BLANK: Instruction := Instruction(0, 0, 0, false, false, 0, 0, 0, false, false, 0)

  function Bit(b: bool): nat {
    if b then 1 else 0
  }

  /** The fields fit their bit fields. */
  predicate InRange(i: Instruction) {
    i.osz < 4 && i.opc < 64 && i.ra < 16 && i.imd < 4 && i.ims < 4 && i.rb < 16
  }

  function Byte1(i: Instruction): Byte
    requires InRange(i)
  {
    i.osz + 4 * i.opc
  }

  function Byte2(i: Instruction): Byte
    requires InRange(i)
  {
    i.ra + 16 * Bit(i.iam) + 32 * Bit(i.rmd) + 64 * i.imd
  }

  function Byte3(i: Instruction): Byte
    requires InRange(i)
  {
    i.ims + 4 * i.rb + 64 * Bit(i.ibm) + 128 * Bit(i.iea)
  }

  function WithByte1(i: Instruction, b: Byte): Instruction {
    i.(osz := b % 4, opc := b / 4)
  }

  function WithByte2(i: Instruction, b: Byte): Instruction {
    i.(ra := b % 16, iam := b / 16 % 2 == 1, rmd := b / 32 % 2 == 1, imd := b / 64)
  }

  function WithByte3(i: Instruction, b: Byte): Instruction {
    i.(ims := b % 4, rb := b / 4 % 16, ibm := b / 64 % 2 == 1, iea := b / 128 == 1)
  }

  // ---------------------------------------------------------------------------------------------
  // Encoding
  // ---------------------------------------------------------------------------------------------

  predicate HasImmediate(i: Instruction) {
    i.osz > 1 && (i.rmd || i.iea)
  }

  /** The size field the encoder goes by. */
  function ImmediateMode(i: Instruction): nat {
    if i.osz == 2 then i.ra else i.ims
  }

  /** What the assembler's parser produces, as far as the encoder depends on it. */
  predicate WellFormed(i: Instruction) {
    && InRange(i) && 1 <= i.osz <= 3
    && (i.osz == 1 ==> !i.rmd && !i.iea)
    && (i.osz == 2 ==> !i.iea && (i.rmd ==> i.ra == i.ims))
  }

  function Encode(i: Instruction): seq<Byte>
    requires WellFormed(i)
  {
    [Byte1(i)]
    + (if i.osz > 1 then [Byte2(i)] else [])
    + (if i.osz > 2 then [Byte3(i)] else [])
    + (if HasImmediate(i) then Put(i.ii, SizeOf(ImmediateMode(i))) else [])
  }

  /** The size the linker counts for an instruction. */
  function Length(i: Instruction): nat
    requires i.ims < 4
  {
    i.osz + if i.rmd || i.iea then SizeOf(i.ims) else 0
  }

  predicate AllWellFormed(s: seq<Instruction>) {
    forall k :: 0 <= k < |s| ==> WellFormed(s[k])
  }

  function EncodeAll(s: seq<Instruction>): seq<Byte>
    requires AllWellFormed(s)
  {
    if s == [] then [] else Encode(s[0]) + EncodeAll(s[1..])
  }

  /** The address of instruction `k` when the first one is at `base`. */
  function Address(s: seq<Instruction>, base: nat, k: nat): (a: nat)
    requires k <= |s| && forall j :: 0 <= j < |s| ==> s[j].ims < 4
    ensures a >= base
  {
    if k == 0 then base else Address(s, base, k - 1) + Length(s[k - 1])
  }

  lemma EncodeAllEmpty(s: seq<Instruction>)
    requires s == []
    ensures EncodeAll(s) == []
  {
  }

  lemma EncodeAllPush(s: seq<Instruction>, i: Instruction)
    requires AllWellFormed(s) && WellFormed(i)
    ensures EncodeAll(s + [i]) == EncodeAll(s) + Encode(i)
  {
    hide WellFormed, Encode;
    if s != [] {
      assert (s + [i])[1..] == s[1..] + [i];
      EncodeAllPush(s[1..], i);
    }
  }

  class CodeVector {
    var data: seq<Byte>

    constructor ()
      ensures data == []
    {
      data := [];
    }

    /** The body of the loop of VM_code_append_. */
    method Push(ins: Instruction)
      requires WellFormed(ins)
      modifies this
      ensures data == old(data) + Encode(ins)
    {
      hide Byte1, Byte2, Byte3, Put;
      data := data + [Byte1(ins)];
      if ins.osz > 1 {
        data := data + [Byte2(ins)];
      }
      if ins.osz > 2 {
        data := data + [Byte3(ins)];
      }
      if ins.osz > 1 && (ins.rmd || ins.iea) {
        data := data + Put(ins.ii, SizeOf(if ins.osz == 2 then ins.ra else ins.ims));
      }
    }

    /** VM_code_append_: pushes the bytes of a sequence of instructions. */
    method Append(s: seq<Instruction>)
      requires AllWellFormed(s)
      modifies this
      ensures data == old(data) + EncodeAll(s)
    {
      hide WellFormed, Encode, EncodeAll;
      var i := 0;
      EncodeAllEmpty(s[..0]);
      while i < |s|
        invariant 0 <= i <= |s|
        invariant data == old(data) + EncodeAll(s[..i])
      {
        EncodeAllPush(s[..i], s[i]);
        assert s[..i + 1] == s[..i] + [s[i]];
        Push(s[i]);
        i := i + 1;
      }
      assert s[..|s|] == s;
    }
  }

  // ---------------------------------------------------------------------------------------------
  // Decoding
  // ---------------------------------------------------------------------------------------------

  /** Unreadable: the program reads through the NULL pointer or past the code vector. */
  datatype Fetched = Fetched(instr: Instruction, next: nat) | PastTheEnd | Unreadable

  /** The two-byte form keeps the immediate size in the place of its register. */
  function FixTwoByte(i: Instruction): Instruction {
    if i.osz == 2 then i.(ims := i.ra % 4, ra := 0) else i
  }

  function FetchImmediate(i: Instruction, code: seq<Byte>, ip: nat): (r: Fetched)
    requires ip <= |code| && i.ims < 4
  {
    if i.rmd || i.iea then
      var j := FixTwoByte(i);
      if ip >= |code| then
        Unreadable
      else if ip + SizeOf(j.ims) > |code| then
        PastTheEnd
      else
        Fetched(j.(ii := Get(code[ip..ip + SizeOf(j.ims)])), ip + SizeOf(j.ims))
    else
      Fetched(i, ip)
  }

  /** VM_fetch. */
  function Fetch(code: seq<Byte>, ip: nat): (r: Fetched) {
    if ip + 1 > |code| then
      PastTheEnd
    else
      var i := WithByte1(BLANK, code[ip]);
      if i.osz == 1 then
        Fetched(i, ip + 1)
      else if ip + i.osz > |code| then
        PastTheEnd
      else if ip + 1 == |code| then
        Unreadable
      else
        var j := WithByte2(i, code[ip + 1]);
        if j.osz == 3 then
          FetchImmediate(WithByte3(j, code[ip + 2]), code, ip + 3)
        else
          FetchImmediate(j, code, ip + 2)
  }

  lemma FetchNext(code: seq<Byte>, ip: nat)
    ensures Fetch(code, ip).Fetched? ==> ip < Fetch(code, ip).next <= |code|
    ensures Fetch(code, ip).Fetched? ==> Fetch(code, ip).instr.ims < 4 && Fetch(code, ip).instr.imd < 4
  {
    hide Get;
  }

  lemma FetchedSizeField(code: seq<Byte>, ip: nat)
    ensures Fetch(code, ip).Fetched? ==> ip < |code| && Fetch(code, ip).instr.osz == code[ip] % 4
  {
    hide Get;
  }

  /** VM_code_instruction_at: the instruction and its size, which is 0 when there is none. */
  datatype Decoded = Decoded(instr: Instruction, size: nat) | OffTheEnd

  function InstructionAt(code: seq<Byte>, start: nat): (r: Decoded) {
    if start + 1 > |code| then
      Decoded(BLANK, 0)
    else
      var i := WithByte1(BLANK, code[start]);
      if start + i.osz > |code| then
        Decoded(i.(osz := 0), 0)
      else if i.osz <= 1 then
        Decoded(i, i.osz)
      else
        var j := WithByte2(i, code[start + 1]);
        var k := if j.osz == 2 && j.rmd then j.(ims := j.ra % 4, ra := 0) else j;
        var l := if k.osz == 3 then WithByte3(k, code[start + 2]) else k;
        if l.rmd || l.iea then
          var n := SizeOf(l.ims);
          if start + l.osz + n > |code| then
            OffTheEnd
          else
            Decoded(l.(ii := Get(code[start + l.osz..start + l.osz + n])), l.osz + n)
        else
          Decoded(l, l.osz)
  }

  /**
   Where the size field is not zero the two decoders agree: the one fetches an instruction exactly when the
   other gives it a size, and then both give the same instruction and the same size.
   */
  lemma DecodersAgree(code: seq<Byte>, ip: nat)
    requires ip < |code| && code[ip] % 4 != 0
    ensures var f, d := Fetch(code, ip), InstructionAt(code, ip);
            (f.Fetched? <==> d.Decoded? && d.size > 0) && (f.Fetched? ==> d == Decoded(f.instr, f.next - ip))
  {
    hide Get;
    var i1 := WithByte1(BLANK, code[ip]);
    if 2 <= i1.osz && ip + i1.osz <= |code| {
      var i2 := WithByte2(i1, code[ip + 1]);
      assert i1.osz == 2 ==> !i2.iea;
    }
  }

  /**
   With a size field of zero they disagree whenever the machine's decoder fetches something: it reads a second
   byte, and the disassembler's gives no size.
   */
  lemma DecodersDisagree(code: seq<Byte>, ip: nat)
    requires ip < |code| && code[ip] % 4 == 0
    ensures InstructionAt(code, ip) == Decoded(WithByte1(BLANK, code[ip]), 0)
    ensures ip + 1 < |code| && code[ip + 1] / 32 % 2 == 0 ==>
              Fetch(code, ip) == Fetched(WithByte2(WithByte1(BLANK, code[ip]), code[ip + 1]), ip + 2)
    ensures ip + 1 < |code| && code[ip + 1] / 32 % 2 == 1 ==>
              Fetch(code, ip).Fetched? == (ip + 2 < |code|)
    ensures ip + 1 == |code| ==> Fetch(code, ip) == Unreadable
  {
    hide Get;
  }

  // ---------------------------------------------------------------------------------------------
  // Round trips
  // ---------------------------------------------------------------------------------------------

  /** The immediate survives its size field. */
  predicate ImmediateFits(i: Instruction)
    requires i.ims < 4
  {
    HasImmediate(i) ==> Fits(i.ii, SizeOf(i.ims))
  }

  /** An instruction with every field that is not encoded set to zero. */
  function Normal(i: Instruction): Instruction {
    if i.osz == 1 then
      BLANK.(osz := 1, opc := i.opc)
    else if i.osz == 2 then
      BLANK.(osz := 2, opc := i.opc, iam := i.iam, rmd := i.rmd, imd := i.imd,
             ra := if i.rmd then 0 else i.ra, ims := if i.rmd then i.ims else 0, ii := if i.rmd then i.ii else 0)
    else
      i.(ii := if i.rmd || i.iea then i.ii else 0)
  }

  lemma PackByte2(i: Instruction, j: Instruction)
    requires InRange(i)
    ensures WithByte2(j, Byte2(i)) == j.(ra := i.ra, iam := i.iam, rmd := i.rmd, imd := i.imd)
  {
    var b := Byte2(i);
    assert b / 64 == i.imd && b / 32 == Bit(i.rmd) + 2 * i.imd;
    assert b / 16 == Bit(i.iam) + 2 * Bit(i.rmd) + 4 * i.imd;
  }

  lemma PackByte3(i: Instruction, j: Instruction)
    requires InRange(i)
    ensures WithByte3(j, Byte3(i)) == j.(ims := i.ims, rb := i.rb, ibm := i.ibm, iea := i.iea)
  {
    var b := Byte3(i);
    assert b / 128 == Bit(i.iea) && b / 64 == Bit(i.ibm) + 2 * Bit(i.iea);
    assert b / 4 == i.rb + 16 * (Bit(i.ibm) + 2 * Bit(i.iea));
  }

  lemma EncodeLength(i: Instruction)
    requires WellFormed(i)
    ensures |Encode(i)| == Length(i)
  {
  }

  lemma PackByte1(i: Instruction)
    requires InRange(i)
    ensures WithByte1(BLANK, Byte1(i)) == BLANK.(osz := i.osz, opc := i.opc)
  {
  }

  /** Encode's bytes at their places in the code. */
  lemma EncodedAt(pre: seq<Byte>, i: Instruction, post: seq<Byte>)
    requires WellFormed(i)
    ensures var code, p := pre + Encode(i) + post, |pre|;
      && |code| == p + Length(i) + |post|
      && code[p] == Byte1(i)
      && (i.osz > 1 ==> code[p + 1] == Byte2(i))
      && (i.osz > 2 ==> code[p + 2] == Byte3(i))
      && (HasImmediate(i) ==> code[p + i.osz..p + i.osz + SizeOf(i.ims)] == Put(i.ii, SizeOf(i.ims)))
  {
    hide Byte1, Byte2, Byte3, Put;
    var code, p := pre + Encode(i) + post, |pre|;
    EncodeLength(i);
    assert forall k :: 0 <= k < |Encode(i)| ==> code[p + k] == Encode(i)[k];
    if HasImmediate(i) {
      assert Encode(i)[i.osz..] == Put(i.ii, SizeOf(i.ims));
      assert code[p + i.osz..p + i.osz + SizeOf(i.ims)] == Encode(i)[i.osz..];
    }
  }

  /** Decoding the bytes of an instruction, anywhere in the code, gives the instruction back. */
  lemma FetchEncoded(pre: seq<Byte>, i: Instruction, post: seq<Byte>)
    requires WellFormed(i)
    ensures var r := Fetch(pre + Encode(i) + post, |pre|);
      && r.Fetched? && r.next == |pre| + Length(i) && r.instr.(ii := 0) == Normal(i).(ii := 0)
      && (r.instr == Normal(i) <==> ImmediateFits(i))
      && (HasImmediate(i) ==> r.instr.ii == Get(Put(i.ii, SizeOf(i.ims))))
  {
    hide Byte1, Byte2, Byte3, Put, Get, Fits, Encode, WithByte1, WithByte2, WithByte3;
    var code, p := pre + Encode(i) + post, |pre|;
    EncodedAt(pre, i, post);
    PackByte1(i);
    if i.osz > 1 {
      PackByte2(i, BLANK.(osz := i.osz, opc := i.opc));
    }
    if i.osz > 2 {
      PackByte3(i, BLANK.(osz := i.osz, opc := i.opc, ra := i.ra, iam := i.iam, rmd := i.rmd, imd := i.imd));
    }
    if HasImmediate(i) {
      GetPut(i.ii, SizeOf(i.ims));
    }
  }

  // ---------------------------------------------------------------------------------------------
  // Whole programs
  // ---------------------------------------------------------------------------------------------

  predicate AllFit(s: seq<Instruction>)
    requires AllWellFormed(s)
  {
    forall k :: 0 <= k < |s| ==> ImmediateFits(s[k])
  }

  lemma {:induction false} EncodeAllSplit(s: seq<Instruction>, k: nat)
    requires AllWellFormed(s) && k <= |s|
    ensures EncodeAll(s) == EncodeAll(s[..k]) + EncodeAll(s[k..])
    decreases k
  {
    hide WellFormed, Encode;
    if k == 0 {
      assert s[0..] == s;
    } else {
      EncodeAllSplit(s[1..], k - 1);
      assert s[1..][..k - 1] == s[..k][1..] && s[1..][k - 1..] == s[k..];
    }
  }

  /** The linker's running address of instruction `k` is where its bytes start. */
  lemma {:induction false} AddressOfBytes(s: seq<Instruction>, base: nat, k: nat)
    requires AllWellFormed(s) && k <= |s|
    ensures Address(s, base, k) == base + |EncodeAll(s[..k])|
    decreases k
  {
    if k > 0 {
      AddressOfBytes(s, base, k - 1);
      EncodeLength(s[k - 1]);
      hide WellFormed, Encode;
      EncodeAllPush(s[..k - 1], s[k - 1]);
      assert s[..k] == s[..k - 1] + [s[k - 1]];
    }
  }

  lemma {:induction false} AddressGrows(s: seq<Instruction>, base: nat, j: nat, k: nat)
    requires AllWellFormed(s) && j <= k <= |s|
    ensures Address(s, base, j) <= Address(s, base, k)
    ensures j < k ==> Address(s, base, j) < Address(s, base, k)
    decreases k
  {
    if j < k {
      AddressGrows(s, base, j, k - 1);
    }
  }

  /** The bytes in front of instruction `k` and behind it. */
  lemma AroundInstruction(head: seq<Byte>, s: seq<Instruction>, k: nat) returns (pre: seq<Byte>, post: seq<Byte>)
    requires AllWellFormed(s) && k < |s|
    ensures head + EncodeAll(s) == pre + Encode(s[k]) + post && |pre| == Address(s, |head|, k)
  {
    hide Encode, Length, WellFormed;
    var t := s[k..];
    AddressOfBytes(s, |head|, k);
    EncodeAllSplit(s, k);
    assert t[0] == s[k];
    pre, post := head + EncodeAll(s[..k]), EncodeAll(t[1..]);
    assert head + EncodeAll(s) == pre + Encode(s[k]) + post;
  }

  /** At the address of instruction `k`, the machine fetches instruction `k` and moves on to `k + 1`. */
  lemma FetchInstruction(head: seq<Byte>, s: seq<Instruction>, k: nat)
    requires AllWellFormed(s) && AllFit(s) && k < |s|
    ensures Fetch(head + EncodeAll(s), Address(s, |head|, k)) ==
            Fetched(Normal(s[k]), Address(s, |head|, k + 1))
  {
    hide Encode, EncodeAll, Fetch, Normal, Length, WellFormed, ImmediateFits;
    var pre, post := AroundInstruction(head, s, k);
    FetchEncoded(pre, s[k], post);
  }

  lemma CodeLength(head: seq<Byte>, s: seq<Instruction>)
    requires AllWellFormed(s)
    ensures Address(s, |head|, |s|) == |head + EncodeAll(s)|
  {
    AddressOfBytes(s, |head|, |s|);
    assert s[..|s|] == s;
  }

  // ---------------------------------------------------------------------------------------------
  // The disassembler
  // ---------------------------------------------------------------------------------------------

  /** What VM_code_disassemble_ lists from address `ip` on; it gives up where it would read past the code. */
  function Walk(code: seq<Byte>, ip: nat): seq<(nat, Instruction)>
    decreases |code| - ip
  {
    if ip >= |code| then
      []
    else
      match InstructionAt(code, ip)
      case OffTheEnd => []
      case Decoded(i, size) => [(ip, i)] + Walk(code, ip + if size == 0 then 1 else size)
  }

  /** VM_code_instruction_at, filling in the instruction field by field. */
  method DecodeAt(code: seq<Byte>, start: nat) returns (d: Decoded)
    ensures d == InstructionAt(code, start)
  {
    hide Get;
    var iip, instr := start, BLANK;
    if iip + 1 > |code| {
      return Decoded(instr, 0);
    }
    instr := WithByte1(instr, code[iip]);
    iip := iip + 1;
    if start + instr.osz > |code| {
      return Decoded(instr.(osz := 0), 0);
    }
    if instr.osz <= 1 {
      return Decoded(instr, instr.osz);
    }
    instr := WithByte2(instr, code[iip]);
    iip := iip + 1;
    if instr.osz == 2 && instr.rmd {
      instr := instr.(ims := instr.ra % 4, ra := 0);
    }
    if instr.osz == 3 {
      instr := WithByte3(instr, code[iip]);
      iip := iip + 1;
    }
    if instr.rmd || instr.iea {
      var n := SizeOf(instr.ims);
      if iip + n > |code| {
        return OffTheEnd;
      }
      instr := instr.(ii := Get(code[iip..iip + n]));
      iip := iip + n;
    }
    return Decoded(instr, iip - start);
  }

  lemma WalkFrom(code: seq<Byte>, ip: nat)
    ensures ip >= |code| ==> Walk(code, ip) == []
    ensures ip < |code| ==> Walk(code, ip) == match InstructionAt(code, ip)
                                              case OffTheEnd => []
                                              case Decoded(i, size) =>
                                                [(ip, i)] + Walk(code, if size == 0 then ip + 1 else ip + size)
  {
    hide InstructionAt;
  }

  /** VM_code_disassemble_ */
  method Disassemble(code: seq<Byte>, db: nat) returns (listing: seq<(nat, Instruction)>)
    ensures listing == Walk(code, db)
  {
    hide InstructionAt, Walk;
    listing := [];
    var ip := db;
    while ip < |code|
      invariant listing + Walk(code, ip) == Walk(code, db)
      decreases |code| - ip
    {
      WalkFrom(code, ip);
      var d := DecodeAt(code, ip);
      if d.OffTheEnd? {
        return;
      }
      ghost var rest := Walk(code, if d.size == 0 then ip + 1 else ip + d.size);
      assert listing + ([(ip, d.instr)] + rest) == listing + [(ip, d.instr)] + rest;
      listing := listing + [(ip, d.instr)];
      ip := ip + d.size;
      if d.size == 0 {
        ip := ip + 1;
      }
    }
    WalkFrom(code, ip);
  }

  /** `w` lists the instructions of `s` from `k` on, each at its linked address. */
  ghost predicate Lists(w: seq<(nat, Instruction)>, s: seq<Instruction>, base: nat, k: nat)
    requires AllWellFormed(s) && k <= |s|
  {
    |w| == |s| - k && forall j :: 0 <= j < |w| ==> w[j] == (Address(s, base, k + j), Normal(s[k + j]))
  }

  lemma ListsCons(w: seq<(nat, Instruction)>, s: seq<Instruction>, base: nat, k: nat)
    requires AllWellFormed(s) && k < |s| && Lists(w, s, base, k + 1)
    ensures Lists([(Address(s, base, k), Normal(s[k]))] + w, s, base, k)
  {
    var v := [(Address(s, base, k), Normal(s[k]))] + w;
    hide Address, Normal;
    forall j | 0 <= j < |v|
      ensures v[j] == (Address(s, base, k + j), Normal(s[k + j]))
    {
      if j > 0 {
        assert v[j] == w[j - 1];
      }
    }
  }

  lemma NormalSize(i: Instruction)
    requires WellFormed(i)
    ensures Normal(i).osz == i.osz > 0
  {
  }

  lemma WalkStep(head: seq<Byte>, s: seq<Instruction>, k: nat)
    requires AllWellFormed(s) && AllFit(s) && k < |s|
    ensures var code, a := head + EncodeAll(s), Address(s, |head|, k);
      Walk(code, a) == [(a, Normal(s[k]))] + Walk(code, Address(s, |head|, k + 1))
  {
    hide EncodeAll, InstructionAt, Fetch, AllFit, Length, Normal;
    var code, a, n := head + EncodeAll(s), Address(s, |head|, k), Length(s[k]);
    assert Address(s, |head|, k + 1) == a + n;
    hide Address;
    NormalSize(s[k]);
    FetchInstruction(head, s, k);
    CodeLength(head, s);
    AddressGrows(s, |head|, k, |s|);
    AddressGrows(s, |head|, k, k + 1);
    FetchedSizeField(code, a);
    DecodersAgree(code, a);
  }

  lemma WalkAtEnd(head: seq<Byte>, s: seq<Instruction>)
    requires AllWellFormed(s)
    ensures Lists(Walk(head + EncodeAll(s), Address(s, |head|, |s|)), s, |head|, |s|)
  {
    CodeLength(head, s);
    hide EncodeAll, Address, InstructionAt;
  }

  /** The listing of an encoded program is the program: every instruction at its linked address. */
  lemma {:induction false} WalkEncoded(head: seq<Byte>, s: seq<Instruction>, k: nat)
    requires AllWellFormed(s) && AllFit(s) && k <= |s|
    ensures Lists(Walk(head + EncodeAll(s), Address(s, |head|, k)), s, |head|, k)
    decreases |s| - k
  {
    if k == |s| {
      WalkAtEnd(head, s);
    } else {
      WalkStep(head, s, k);
      hide EncodeAll, Address, Normal, Lists, AllFit, WellFormed, Walk;
      WalkEncoded(head, s, k + 1);
      ListsCons(Walk(head + EncodeAll(s), Address(s, |head|, k + 1)), s, |head|, k);
    }
  }

  // ---------------------------------------------------------------------------------------------
  // Literals
  // ---------------------------------------------------------------------------------------------

  /** VM_integer_size: the mode of a literal, from its unsigned 64-bit value. */
  function IntegerSize(imm: nat): (mode: nat)
    ensures mode < 4
  {
    if imm <= 0x7F then 0 else if imm <= 0x7FFF then 1 else if imm <= 0x7FFF_FFFF then 2 else 3
  }

  function Signed64(x: int): int {
    (x + 0x8000_0000_0000_0000) % 0x1_0000_0000_0000_0000 - 0x8000_0000_0000_0000
  }

  /** A literal with its sign, sized by its magnitude, always fits. */
  lemma LiteralFits(imm: int, negative: bool)
    requires 0 <= imm < 0x1_0000_0000_0000_0000
    ensures Fits(Signed64(if negative then -imm else imm), SizeOf(IntegerSize(imm)))
    ensures IntegerSize(imm) < 3 ==> Signed64(if negative then -imm else imm) == if negative then -imm else imm
  {
    assert Pow256(0) == 1 && Pow256(1) == 0x100 && Pow256(3) == 0x100_0000 && Pow256(7) == 0x100_0000_0000_0000 by {
      assert Pow256(2) == 0x1_0000 && Pow256(4) == 0x1_0000_0000 && Pow256(5) == 0x100_0000_0000;
      assert Pow256(6) == 0x1_0000_0000_0000;
    }
  }

  /** No smaller size would hold the literal. */
  lemma SizeLeast(imm: nat, mode: nat)
    requires mode < IntegerSize(imm)
    ensures !Fits(imm, SizeOf(mode))
  {
    assert Pow256(0) == 1 && Pow256(1) == 0x100 && Pow256(3) == 0x100_0000 by {
      assert Pow256(2) == 0x1_0000;
    }
  }

  // ---------------------------------------------------------------------------------------------
  // The bits of an instruction
  // ---------------------------------------------------------------------------------------------

  /** The `width` bits of a byte from bit `low` on. */
  function Field(b: Byte, low: nat, width: nat): nat {
    b / Pow2(low) % Pow2(width)
  }

  lemma Powers()
    ensures Pow2(0) == 1 && Pow2(1) == 2 && Pow2(2) == 4 && Pow2(4) == 16 && Pow2(5) == 32 && Pow2(6) == 64
    ensures Pow2(7) == 128
  {
    assert Pow2(3) == 8;
  }

  lemma FirstFields(i: Instruction)
    requires InRange(i)
    ensures Field(Byte1(i), 0, 2) == i.osz && Field(Byte1(i), 2, 6) == i.opc
  {
    Powers();
  }

  lemma SecondFields(i: Instruction)
    requires InRange(i)
    ensures Field(Byte2(i), 0, 4) == i.ra && Field(Byte2(i), 4, 1) == Bit(i.iam)
    ensures Field(Byte2(i), 5, 1) == Bit(i.rmd) && Field(Byte2(i), 6, 2) == i.imd
  {
    Powers();
    PackByte2(i, BLANK);
    var b := Byte2(i);
    assert b % 16 == i.ra && b / 16 % 2 == Bit(i.iam) && b / 32 % 2 == Bit(i.rmd) && b / 64 == i.imd;
  }

  lemma ThirdFields(i: Instruction)
    requires InRange(i)
    ensures Field(Byte3(i), 0, 2) == i.ims && Field(Byte3(i), 2, 4) == i.rb
    ensures Field(Byte3(i), 6, 1) == Bit(i.ibm) && Field(Byte3(i), 7, 1) == Bit(i.iea)
  {
    Powers();
    PackByte3(i, BLANK);
    var b := Byte3(i);
    assert b % 4 == i.ims && b / 4 % 16 == i.rb && b / 64 % 2 == Bit(i.ibm) && b / 128 == Bit(i.iea);
  }

  /** Where the fields stand in the bytes: size and opcode, then the first operand, then the second one. */
  lemma LayoutExact(i: Instruction)
    requires WellFormed(i)
    ensures var e := Encode(i);
            && |e| >= i.osz && Field(e[0], 0, 2) == i.osz && Field(e[0], 2, 6) == i.opc
            && (i.osz > 1 ==>
                  && Field(e[1], 0, 4) == i.ra && Field(e[1], 4, 1) == Bit(i.iam)
                  && Field(e[1], 5, 1) == Bit(i.rmd) && Field(e[1], 6, 2) == i.imd)
            && (i.osz > 2 ==>
                  && Field(e[2], 0, 2) == i.ims && Field(e[2], 2, 4) == i.rb
                  && Field(e[2], 6, 1) == Bit(i.ibm) && Field(e[2], 7, 1) == Bit(i.iea))
            && e[i.osz..] == if HasImmediate(i) then Put(i.ii, SizeOf(i.ims)) else []
  {
    Powers();
    hide Put, Pow2;
    FirstFields(i);
    if i.osz > 1 {
      SecondFields(i);
    }
    if i.osz > 2 {
      ThirdFields(i);
    }
    hide Byte1, Byte2, Byte3, Field;
  }

  // ---------------------------------------------------------------------------------------------
  // Code that ends too early, and listings of any bytes
  // ---------------------------------------------------------------------------------------------

  /** The first bytes of an instruction in the code. */
  lemma CutAt(pre: seq<Byte>, i: Instruction, n: nat)
    requires WellFormed(i) && n < |Encode(i)|
    ensures var code, p := pre + Encode(i)[..n], |pre|;
            && |code| == p + n && |Encode(i)| == Length(i)
            && (n > 0 ==> code[p] == Byte1(i))
            && (n > 1 && i.osz > 1 ==> code[p + 1] == Byte2(i))
            && (n > 2 && i.osz > 2 ==> code[p + 2] == Byte3(i))
  {
    EncodeLength(i);
    hide Byte1, Byte2, Byte3, Put;
  }

  /**
   The decoder of the machine runs past the end exactly when the code ends inside an instruction; when it ends
   where the immediate should begin the immediate is read through a null pointer.
   */
  lemma CutShort(pre: seq<Byte>, i: Instruction, n: nat)
    requires WellFormed(i) && n < |Encode(i)|
    ensures Fetch(pre + Encode(i)[..n], |pre|) == if n == i.osz then Unreadable else PastTheEnd
  {
    hide Encode, Byte1, Byte2, Byte3, Put, Get, WithByte1, WithByte2, WithByte3;
    CutAt(pre, i, n);
    PackByte1(i);
    PackByte2(i, BLANK.(osz := i.osz, opc := i.opc));
    PackByte3(i, BLANK.(osz := i.osz, opc := i.opc, ra := i.ra, iam := i.iam, rmd := i.rmd, imd := i.imd));
  }

  /** Entry `j` of a listing is what the second decoder reads at its address, and the next one is right behind it. */
  lemma {:induction false} WalkChain(code: seq<Byte>, ip: nat, j: nat)
    requires j < |Walk(code, ip)|
    ensures var w, d := Walk(code, ip), InstructionAt(code, Walk(code, ip)[j].0);
            && ip <= w[j].0 < |code| && (j == 0 ==> w[j].0 == ip) && d.Decoded? && w[j].1 == d.instr
            && (j + 1 < |w| ==> w[j + 1].0 == w[j].0 + if d.size == 0 then 1 else d.size)
    decreases j
  {
    hide InstructionAt;
    if j > 0 {
      var d := InstructionAt(code, ip);
      WalkChain(code, ip + if d.size == 0 then 1 else d.size, j - 1);
    }
  }

  /** A listing ends at the end of the code, or where an immediate would lie beyond it. */
  lemma {:induction false} WalkEnds(code: seq<Byte>, ip: nat)
    ensures var w := Walk(code, ip);
            w != [] ==>
              var last := w[|w| - 1].0;
              var d := InstructionAt(code, last);
              d.Decoded? && var next := last + if d.size == 0 then 1 else d.size;
              next >= |code| || InstructionAt(code, next).OffTheEnd?
    decreases |code| - ip
  {
    hide InstructionAt;
    if ip < |code| && InstructionAt(code, ip).Decoded? {
      var d := InstructionAt(code, ip);
      WalkEnds(code, ip + if d.size == 0 then 1 else d.size);
    }
  }
}
