/**
 * decompile.rs, the older stand-alone disassembler: its own opcode type
 * without UNKNOWN, a `next` that returns `Option<Opcode>` (None for a byte
 * it does not know) and the loop in `run` that describes every Some(x)
 * until Some(END). Its `decode` is the same text as the one in
 * src/evm/vm.rs and is modelled once, by Hex.Decode.
 */
module Decompile {
  import opened Words
  import opened Results
  import Opcodes
  import Machine
  import Driver

  /** decompile.rs's `Opcode`: the same variants as src/evm/opcode.rs less UNKNOWN. */
  datatype Opcode =
    | Stop(addr: nat)
    | Add(addr: nat)
    | Mul(addr: nat)
    | Push1(addr: nat, value: Byte)
    | Push2(addr: nat, value0: Byte, value1: Byte)
    | End

  datatype Fetched = Fetched(op: Option<Opcode>, pc: nat)

  /** The older variant's view of a result of the newer `next`: UNKNOWN has no counterpart and is None. */
  function FromCurrent(op: Opcodes.Opcode): Option<Opcode>
  {
    match op
    case Stop(a) => Some(Stop(a))
    case Add(a) => Some(Add(a))
    case Mul(a) => Some(Mul(a))
    case Push1(a, v) => Some(Push1(a, v))
    case Push2(a, v0, v1) => Some(Push2(a, v0, v1))
    case Unknown(_) => None
    case End => Some(End)
  }

  /**
   * `Vm::next` of decompile.rs as a function of (code, pc). It moves pc
   * exactly as the src/evm/vm.rs version does and returns the same opcode,
   * except that an unknown byte gives None.
   */
  function Step(code: seq<Byte>, pc: nat): (r: Fetched)
    requires Machine.ImmediateInBounds(code, pc)
    ensures r.pc == Machine.Step(code, pc).pc
    ensures r.op == FromCurrent(Machine.Step(code, pc).op)
    ensures r.op == Some(End) <==> pc >= |code|
    ensures r.op.None? <==> pc < |code| && code[pc] !in {0x00, 0x01, 0x02, 0x60, 0x61}
  {
    if pc >= |code| then Fetched(Some(End), pc)
    else if code[pc] == 0x00 then Fetched(Some(Stop(pc)), pc + 1)
    else if code[pc] == 0x01 then Fetched(Some(Add(pc)), pc + 1)
    else if code[pc] == 0x02 then Fetched(Some(Mul(pc)), pc + 1)
    else if code[pc] == 0x60 then Fetched(Some(Push1(pc, code[pc + 1])), pc + 2)
    else if code[pc] == 0x61 then Fetched(Some(Push2(pc, code[pc + 1], code[pc + 1])), pc + 3)
    else Fetched(None, pc + 1)
  }

  /** The opcodes the `run` loop describes from pc on: END stops it and None is skipped silently. */
  function Shown(code: seq<Byte>, pc: nat): seq<Opcode>
    requires Machine.Decodable(code, pc)
    decreases |code| - pc
  {
    var f := Step(code, pc);
    match f.op
    case Some(End) => []
    case None => Shown(code, f.pc)
    case Some(x) => [x] + Shown(code, f.pc)
  }

  /** The known, non-END entries of a trace of the newer `next`, converted. */
  function Known(t: seq<Opcodes.Opcode>): seq<Opcode>
  {
    if t == [] then []
    else
      match FromCurrent(t[0])
      case None => Known(t[1..])
      case Some(End) => Known(t[1..])
      case Some(x) => [x] + Known(t[1..])
  }

  /** The older disassembler shows exactly the newer one's trace with UNKNOWN and END dropped. */
  lemma {:induction false} ShownIsKnownTrace(code: seq<Byte>, pc: nat)
    requires Machine.Decodable(code, pc)
    ensures Shown(code, pc) == Known(Driver.Trace(code, pc))
    decreases |code| - pc
  {
    var f := Machine.Step(code, pc);
    var t := Driver.Trace(code, pc);
    if f.op.End? {
      assert t == [Opcodes.End];
      assert t[1..] == [];
    } else {
      ShownIsKnownTrace(code, f.pc);
      assert t[1..] == Driver.Trace(code, f.pc);
    }
  }

  /** Every shown opcode lies inside the code, so at most |code| - pc are shown. */
  lemma {:induction false} ShownLength(code: seq<Byte>, pc: nat)
    requires Machine.Decodable(code, pc)
    ensures pc <= |code| ==> |Shown(code, pc)| <= |code| - pc
    ensures forall i :: 0 <= i < |Shown(code, pc)| ==> !Shown(code, pc)[i].End?
    decreases |code| - pc
  {
    var f := Step(code, pc);
    if f.op != Some(End) {
      ShownLength(code, f.pc);
      var s, rest := Shown(code, pc), Shown(code, f.pc);
      assert f.op.Some? ==> s == [f.op.value] + rest;
    }
  }

  /** decompile.rs's `Vm`: bytecode and program counter, no stack. */
  class Vm {
    var code: seq<Byte>
    var pc: nat

    constructor (code: seq<Byte>)
      ensures this.code == code && pc == 0
    {
      this.code := code;
      pc := 0;
    }

    /** `Vm::next`: the opcode at pc, or None for an unknown byte, and pc moved past it. */
    method Next() returns (op: Option<Opcode>)
      requires Machine.ImmediateInBounds(code, pc)
      modifies this`pc
      ensures Fetched(op, pc) == Step(code, old(pc))
    {
      if pc >= |code| {
        return Some(End);
      }
      var addr := pc;
      var b := code[addr];
      if b == 0x00 {
        pc := pc + 1;
        op := Some(Stop(addr));
      } else if b == 0x01 {
        pc := pc + 1;
        op := Some(Add(addr));
      } else if b == 0x02 {
        pc := pc + 1;
        op := Some(Mul(addr));
      } else if b == 0x60 {
        var value := code[pc + 1];
        pc := pc + 2;
        op := Some(Push1(addr, value));
      } else if b == 0x61 {
        var value0 := code[pc + 1];
        var value1 := code[pc + 1];
        pc := pc + 3;
        op := Some(Push2(addr, value0, value1));
      } else {
        pc := pc + 1;
        op := None;
      }
    }
  }

  lemma ShownStep(code: seq<Byte>, pc: nat)
    requires Machine.Decodable(code, pc)
    ensures pc < |code| ==> Machine.Decodable(code, Step(code, pc).pc)
    ensures Step(code, pc).op == Some(End) ==> Shown(code, pc) == []
    ensures Step(code, pc).op.None? ==> Shown(code, pc) == Shown(code, Step(code, pc).pc)
    ensures Step(code, pc).op.Some? && Step(code, pc).op != Some(End) ==>
              Shown(code, pc) == [Step(code, pc).op.value] + Shown(code, Step(code, pc).pc)
  {
  }

  /** The decode loop of `run`: describe every Some(x), skip None, stop at Some(END). */
  method Run(vm: Vm) returns (shown: seq<Opcode>)
    requires Machine.Decodable(vm.code, vm.pc)
    modifies vm`pc
    ensures shown == Shown(vm.code, old(vm.pc))
    ensures vm.pc >= |vm.code|
  {
    ghost var all := Shown(vm.code, vm.pc);
    shown := [];
    while true
      invariant Machine.Decodable(vm.code, vm.pc)
      invariant shown + Shown(vm.code, vm.pc) == all
      decreases |vm.code| - vm.pc
    {
      ShownStep(vm.code, vm.pc);
      var op := vm.Next();
      match op
      case Some(End) =>
        break;
      case Some(x) =>
        shown := shown + [x];
      case None =>
    }
  }
}
