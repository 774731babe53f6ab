/**
 * The virtual machine of src/evm/vm.rs: the fetch-decode step `Vm::next`
 * and the single-step interpreter `Vm::interpret`, over a `Vm` object whose
 * fields are the bytecode, the program counter and the stack of words.
 *
 * Each method is specified by a pure function of the old state: Step for
 * `next`, Apply and Exec1 for `interpret`. The source's panics (indexing
 * past the code, `unwrap` on an empty stack, U256 overflow on `+`) are the
 * error values of those functions and the preconditions of the methods.
 */
module Machine {
  import opened Words
  import opened Results
  import opened Opcodes

  /** Why a step panics in the source. */
  datatype Fault =
    | IndexOutOfBounds   // PUSH1/PUSH2 as the last byte: `code[pc+1]` is out of range
    | StackUnderflow     // ADD with fewer than two entries: `pop().unwrap()`
    | Overflow           // ADD whose sum does not fit in 256 bits: U256 `+`

  /** The result of one fetch-decode step: the opcode and the new program counter. */
  datatype Fetched = Fetched(op: Opcode, pc: nat)

  /** The execution state `interpret` reads and writes. */
  datatype Config = Config(pc: nat, stack: seq<Word>)

  /** `next` does not panic at pc: a PUSH1 or PUSH2 there has a following byte. */
  predicate ImmediateInBounds(code: seq<Byte>, pc: nat)
  {
    pc < |code| && (code[pc] == 0x60 || code[pc] == 0x61) ==> pc + 1 < |code|
  }

  /**
   * `Vm::next` as a function of (code, pc). The code as written: PUSH2 reads
   * code[pc+1] for both of its bytes and still advances by 3; 0x51-0x53 and
   * 0x7f have no arm and decode as UNKNOWN.
   */
  function Step(code: seq<Byte>, pc: nat): (r: Fetched)
    requires ImmediateInBounds(code, pc)
    ensures r.op.End? <==> pc >= |code|
    ensures r.op.End? ==> r.pc == pc
    ensures !r.op.End? ==> r.op.addr == pc && r.pc == pc + Width(r.op) > pc
    ensures !r.op.End? ==> r.pc <= |code| + 1
  {
    if pc >= |code| then Fetched(End, pc)
    else if code[pc] == 0x00 then Fetched(Stop(pc), pc + 1)
    else if code[pc] == 0x01 then Fetched(Add(pc), pc + 1)
    else if code[pc] == 0x02 then Fetched(Mul(pc), pc + 1)
    else if code[pc] == 0x60 then Fetched(Push1(pc, code[pc + 1]), pc + 2)
    else if code[pc] == 0x61 then Fetched(Push2(pc, code[pc + 1], code[pc + 1]), pc + 3)
    else Fetched(Unknown(pc), pc + 1)
  }

  /** The decode table: which variant each opcode byte yields. */
  lemma StepTable(code: seq<Byte>, pc: nat)
    requires pc < |code| && ImmediateInBounds(code, pc)
    ensures code[pc] == 0x00 ==> Step(code, pc) == Fetched(Stop(pc), pc + 1)
    ensures code[pc] == 0x01 ==> Step(code, pc) == Fetched(Add(pc), pc + 1)
    ensures code[pc] == 0x02 ==> Step(code, pc) == Fetched(Mul(pc), pc + 1)
    ensures code[pc] == 0x60 ==> Step(code, pc) == Fetched(Push1(pc, code[pc + 1]), pc + 2)
    ensures code[pc] == 0x61 ==> Step(code, pc) == Fetched(Push2(pc, code[pc + 1], code[pc + 1]), pc + 3)
    ensures code[pc] !in {0x00, 0x01, 0x02, 0x60, 0x61} ==> Step(code, pc) == Fetched(Unknown(pc), pc + 1)
  {
  }

  /**
   * The EVM's memory opcodes and PUSH32 decode as UNKNOWN: MLOAD (0x51) has
   * no arm at all, and the arms for MSTORE (0x52), MSTORE8 (0x53) and
   * PUSH32 (0x7f) are commented out, so all four reach the wildcard arm.
   */
  lemma MemoryAndPush32BytesAreUnknown(code: seq<Byte>, pc: nat)
    requires pc < |code| && code[pc] in {0x51, 0x52, 0x53, 0x7f}
    ensures Step(code, pc) == Fetched(Unknown(pc), pc + 1)
  {
  }

  /**
   * PUSH2 as written: both immediates are code[pc+1], so PUSH2 as the
   * second-to-last byte decodes without a panic; and the byte at pc+2, which
   * it skips over, has no influence on the result.
   */
  lemma Push2ReadsOneByte(code: seq<Byte>, pc: nat, b: Byte)
    requires pc + 1 < |code| && code[pc] == 0x61
    ensures ImmediateInBounds(code, pc)
    ensures Step(code, pc).op.value0 == Step(code, pc).op.value1 == code[pc + 1]
    ensures pc + 2 < |code| ==> Step(code[pc + 2 := b], pc) == Step(code, pc)
  {
  }

  /** The stack effect of one opcode (the `match` in `Vm::interpret`); the stack's top is its last element. */
  function Apply(op: Opcode, stack: seq<Word>): (r: Result<seq<Word>, Fault>)
    ensures op.Push1? ==> r.Ok? && |r.value| == |stack| + 1
    ensures op.Push1? ==> r.value[..|stack|] == stack && r.value[|stack|] == op.value
    ensures op.Add? && |stack| < 2 ==> r == Err(StackUnderflow)
    ensures op.Add? && |stack| >= 2 ==>
              (r.Ok? <==> stack[|stack| - 1] + stack[|stack| - 2] < WORD_LIMIT)
    ensures op.Add? && r.Ok? ==>
              |r.value| == |stack| - 1 &&
              r.value[..|stack| - 2] == stack[..|stack| - 2] &&
              r.value[|stack| - 2] == stack[|stack| - 1] + stack[|stack| - 2]
    ensures !op.Push1? && !op.Add? ==> r == Ok(stack)
  {
    match op
    case Push1(_, v) => Ok(stack + [v])
    case Add(_) =>
      if |stack| < 2 then Err(StackUnderflow)
      else
        var v1, v2 := stack[|stack| - 1], stack[|stack| - 2];
        if v1 + v2 >= WORD_LIMIT then Err(Overflow)
        else Ok(stack[..|stack| - 2] + [v1 + v2])
    case _ => Ok(stack)
  }

  /** `Vm::interpret` as a function: fetch-decode, then apply the opcode's effect. */
  function Exec1(code: seq<Byte>, c: Config): (r: Result<Config, Fault>)
    ensures r == Err(IndexOutOfBounds) <==> !ImmediateInBounds(code, c.pc)
    ensures c.pc >= |code| ==> r == Ok(c)
    ensures r.Ok? && c.pc < |code| ==> c.pc < r.value.pc <= c.pc + 3
  {
    if !ImmediateInBounds(code, c.pc) then Err(IndexOutOfBounds)
    else
      var f := Step(code, c.pc);
      match Apply(f.op, c.stack)
      case Err(e) => Err(e)
      case Ok(stack) => Ok(Config(f.pc, stack))
  }

  /**
   * Every `next` from pc until END stays within the code: the walk the
   * disassembler makes from pc never panics.
   */
  predicate Decodable(code: seq<Byte>, pc: nat)
    decreases |code| - pc
  {
    pc >= |code| || (ImmediateInBounds(code, pc) && Decodable(code, Step(code, pc).pc))
  }

  /** The `Vm` struct: bytecode, program counter and the stack of 256-bit words. */
  class Vm {
    var code: seq<Byte>
    var pc: nat
    var stack: seq<Word>

    /** The state `Vm::new_from_file` builds from decoded bytecode. */
    constructor (code: seq<Byte>)
      ensures this.code == code && pc == 0 && stack == []
    {
      this.code := code;
      pc := 0;
      stack := [];
    }

    function State(): Config
      reads this
    {
      Config(pc, stack)
    }

    /** `Vm::next`: returns the opcode at pc and moves pc past it; code and stack are untouched. */
    method Next() returns (op: Opcode)
      requires ImmediateInBounds(code, pc)
      modifies this`pc
      ensures Fetched(op, pc) == Step(code, old(pc))
    {
      if pc >= |code| {
        return End;
      }
      var addr := pc;
      var b := code[addr];
      if b == 0x00 {
        pc := pc + 1;
        op := Stop(addr);
      } else if b == 0x01 {
        pc := pc + 1;
        op := Add(addr);
      } else if b == 0x02 {
        pc := pc + 1;
        op := Mul(addr);
      } else if b == 0x60 {
        var value := code[pc + 1];
        pc := pc + 2;
        op := Push1(addr, value);
      } else if b == 0x61 {
        var value0 := code[pc + 1];
        var value1 := code[pc + 1];
        pc := pc + 3;
        op := Push2(addr, value0, value1);
      } else {
        pc := pc + 1;
        op := Unknown(addr);
      }
    }

    /**
     * `Vm::interpret`: one fetch-decode step, then PUSH1 pushes its byte and
     * ADD pops two words and pushes their sum; every other opcode leaves the
     * stack alone. The source panics where Exec1 fails.
     */
    method Interpret()
      requires Exec1(code, State()).Ok?
      modifies this`pc, this`stack
      ensures State() == Exec1(code, old(State())).value
    {
      var op := Next();
      match op
      case Push1(_, value) =>
        stack := stack + [value];
      case Add(_) =>
        var v1 := stack[|stack| - 1];
        stack := stack[..|stack| - 1];
        var v2 := stack[|stack| - 1];
        stack := stack[..|stack| - 1];
        stack := stack + [v1 + v2];
      case _ =>
    }
  }
}
