/** How a native function gives its results back: VM_returnx, with values that are not in RAM. */
module Natives {
  import opened Basics
  import opened Bytes
  import opened Instructions
  import opened Machine
  import opened Calls

  /** VM_pushn with data from outside; `data` holds the words. */
  function PushData(s: State, data: seq<Byte>, count: nat): (r: Result<State>)
    requires s.Valid() && |data| == 8 * (count % 256)
    ensures r.Ok? ==> s.Leads(r.value)
  {
    var t :- Reserve(s, count);
    var a :- Mem(t, Reg(t, SP));
    if a + |data| <= |t.ram| then Ok(t.(ram := Splice(t.ram, a, data))) else Bad(Crashed)
  }

  /** VM_returnx */
  function ReturnX(s: State, data: seq<Byte>, count: nat): (r: Result<State>)
    requires s.Valid() && |data| == 8 * (count % 256)
    ensures r.Ok? ==> s.Leads(r.value)
  {
    var f :- PopFrame(s);
    var s1 :- DropArguments(f.1, f.0 % U32);
    var s2 :- if count > 0 then PushData(s1, data, count) else Ok(s1);
    Push(s2, count)
  }

  /** What VM_returnx needs: the frame inside RAM, and room for the results. */
  ghost predicate CanReturnX(s: State, k: nat, n: nat) {
    && s.Valid() && k < 256 && n < 256
    && Reg(s, BP) + 24 + 8 * n <= |s.ram|
    && Word(s, Reg(s, BP) + 16) == n
    && s.sb + 8 + 8 * k < Reg(s, BP) + 24 + 8 * n
  }

  lemma PushDataFacts(s: State, data: seq<Byte>, count: nat)
    requires s.Valid() && 0 < count < 256 && |data| == 8 * count && s.sb + 8 * count < Reg(s, SP) <= |s.ram|
    ensures PushData(s, data, count).Ok?
    ensures var t, to := PushData(s, data, count).value, Reg(s, SP) - 8 * count;
      Reg(t, SP) == to && SameRegsBut(s, t, SP, SP) && t.ram == Splice(s.ram, to, data)
  {
    hide Put, Reg, SetReg, GetU, Get, Splice, Reserve;
    var to := Reg(s, SP) - 8 * count;
    ReserveFacts(s, count);
    RegsOnly(SetReg(s, SP, to), PushData(s, data, count).value);
  }

  /** The state when frame and arguments are gone. */
  lemma UnwindX(s: State, data: seq<Byte>, k: nat, n: nat) returns (u: State)
    requires CanReturnX(s, k, n) && |data| == 8 * k
    ensures u.Valid() && s.Leads(u) && u.ram == s.ram
    ensures Reg(u, SP) == Reg(s, BP) + 24 + 8 * n
    ensures Reg(u, BP) == WordU(s, Reg(s, BP)) && Reg(u, IP) == WordU(s, Reg(s, BP) + 8)
    ensures ReturnX(s, data, k) == (if k > 0 then
                                      (match PushData(u, data, k) case Bad(f) => Bad(f) case Ok(t) => Push(t, k))
                                    else Push(u, k))
  {
    hide Put, GetU, Get, Splice, Push, PushData, Reg, SetReg, Drop, PopFrame;
    PopFrameFacts(s, n);
    u := PopFrame(s).value.1;
    if n > 0 {
      DropFacts(u, n);
      u := SetReg(u, SP, Reg(u, SP) + 8 * n);
    }
  }

  /** A native return leaves the caller what `ret` leaves it: its frame, no arguments, the results and their count. */
  lemma NativeReturnRestores(s: State, data: seq<Byte>, k: nat, n: nat)
    requires CanReturnX(s, k, n) && |data| == 8 * k
    ensures ReturnX(s, data, k).Ok?
    ensures var t, bp := ReturnX(s, data, k).value, Reg(s, BP);
      var to := bp + 24 + 8 * n - 8 * k;
      && Reg(t, BP) == WordU(s, bp) && Reg(t, IP) == WordU(s, bp + 8)
      && Reg(t, SP) == to - 8 && Word(t, to - 8) == k
      && t.ram[to..to + 8 * k] == data
      && SameFrom(s, t, to + 8 * k) && t.ram[..to - 8] == s.ram[..to - 8]
  {
    hide Put, Get, GetU, Push, PushData, ReturnX, Reg, SetReg, Splice;
    var u := UnwindX(s, data, k, n);
    var bp := Reg(s, BP);
    var to := bp + 24 + 8 * n - 8 * k;
    var v := u;
    if k > 0 {
      PushDataFacts(u, data, k);
      v := PushData(u, data, k).value;
    }
    PushFacts(v, k);
    GetPutFitsWord(k);
    var t := Push(v, k).value;
    assert t.ram[to..to + 8 * k] == data;
    assert t.ram[..to - 8] == s.ram[..to - 8];
  }
}
