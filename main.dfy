/**
 * The two driver loops of src/main.rs. `debug` calls `next` until it yields
 * END and describes every other opcode; `interpret` calls `Vm::interpret`
 * while pc is inside the code, so a STOP in the middle does not halt it.
 * Printing is modelled by returning the printed lines.
 */
module Driver {
  import opened Words
  import opened Results
  import opened Opcodes
  import opened Machine

  /** The opcodes successive calls to `next` return from pc on, up to and including END. */
  function Trace(code: seq<Byte>, pc: nat): seq<Opcode>
    requires Decodable(code, pc)
    decreases |code| - pc
  {
    var f := Step(code, pc);
    if f.op.End? then [End] else [f.op] + Trace(code, f.pc)
  }

  /**
   * A trace ends with its only END; every other entry is an instruction
   * found inside the code at or after pc, at strictly increasing offsets.
   */
  lemma {:induction false} TraceShape(code: seq<Byte>, pc: nat)
    requires Decodable(code, pc)
    ensures var t := Trace(code, pc);
            |t| >= 1 && t[|t| - 1] == End &&
            (forall i :: 0 <= i < |t| - 1 ==> !t[i].End? && pc <= t[i].addr < |code|) &&
            (forall i, j :: 0 <= i < j < |t| - 1 ==> t[i].addr < t[j].addr)
    decreases |code| - pc
  {
    var f := Step(code, pc);
    if !f.op.End? {
      TraceShape(code, f.pc);
      var t, rest := Trace(code, pc), Trace(code, f.pc);
      assert t == [f.op] + rest;
      assert forall i :: 1 <= i < |t| ==> t[i] == rest[i - 1];
    }
  }

  /** `debug` calls `next` at most |code| - pc + 1 times: each non-END call advances pc. */
  lemma {:induction false} TraceLength(code: seq<Byte>, pc: nat)
    requires Decodable(code, pc)
    ensures pc <= |code| ==> |Trace(code, pc)| <= |code| - pc + 1
    ensures pc >= |code| ==> Trace(code, pc) == [End]
    decreases |code| - pc
  {
    var f := Step(code, pc);
    if !f.op.End? {
      TraceLength(code, f.pc);
    }
  }

  /** STOP and UNKNOWN do not end the disassembly: the walk goes on at the next byte. */
  lemma TraceContinuesPastStop(code: seq<Byte>, pc: nat)
    requires pc < |code| && code[pc] !in {0x01, 0x02, 0x60, 0x61}
    requires Decodable(code, pc)
    ensures Decodable(code, pc + 1)
    ensures Trace(code, pc) == [Step(code, pc).op] + Trace(code, pc + 1)
    ensures Step(code, pc).op == if code[pc] == 0x00 then Stop(pc) else Unknown(pc)
  {
  }

  /** What `debug` prints for one result of `next`. */
  function Line(op: Opcode): string
  {
    if op.End? then "END" else Describe(op)
  }

  /** The lines `debug` prints for a trace, one per entry. */
  function Listing(t: seq<Opcode>): (lines: seq<string>)
    ensures |lines| == |t|
    ensures forall i :: 0 <= i < |t| ==> lines[i] == Line(t[i])
  {
    seq(|t|, i requires 0 <= i < |t| => Line(t[i]))
  }

  /** The output of `debug` ends with its only "END" line; every other line is a description. */
  lemma DebugOutputShape(code: seq<Byte>, pc: nat)
    requires Decodable(code, pc)
    ensures var lines := Listing(Trace(code, pc));
            |lines| >= 1 && lines[|lines| - 1] == "END" &&
            forall i :: 0 <= i < |lines| - 1 ==>
              lines[i] != "END" && |lines[i]| > 2 && lines[i][..2] == "0x" && OneLine(lines[i])
  {
    var t := Trace(code, pc);
    TraceShape(code, pc);
    forall i | 0 <= i < |t| - 1
      ensures Listing(t)[i] != "END" && |Listing(t)[i]| > 2 && Listing(t)[i][..2] == "0x" && OneLine(Listing(t)[i])
    {
      DescribeError(t[i]);
      DescribeOneLine(t[i]);
    }
  }

  /** One call to `next` contributes one line to the listing. */
  lemma ListingStep(code: seq<Byte>, pc: nat)
    requires Decodable(code, pc)
    ensures pc >= |code| ==> Listing(Trace(code, pc)) == ["END"]
    ensures pc < |code| ==>
              Decodable(code, Step(code, pc).pc) &&
              Listing(Trace(code, pc)) == [Describe(Step(code, pc).op)] + Listing(Trace(code, Step(code, pc).pc))
  {
    var f := Step(code, pc);
    if pc < |code| {
      var t := Trace(code, pc);
      assert t == [f.op] + Trace(code, f.pc);
      assert t[1..] == Trace(code, f.pc);
      assert Listing(t) == [Line(f.op)] + Listing(t[1..]);
    }
  }

  /** `debug`: describe every opcode `next` yields, then print "END" and stop. */
  method Debug(vm: Vm) returns (lines: seq<string>)
    requires Decodable(vm.code, vm.pc)
    modifies vm`pc
    ensures lines == Listing(Trace(vm.code, old(vm.pc)))
    ensures vm.pc >= |vm.code|
  {
    ghost var t0 := Trace(vm.code, vm.pc);
    lines := [];
    while true
      invariant Decodable(vm.code, vm.pc)
      invariant lines + Listing(Trace(vm.code, vm.pc)) == Listing(t0)
      decreases |Trace(vm.code, vm.pc)|
    {
      ListingStep(vm.code, vm.pc);
      var op := vm.Next();
      if op.End? {
        lines := lines + ["END"];
        break;
      }
      lines := lines + [Describe(op)];
    }
  }

  lemma StopLineColumns()
    ensures ("0x" + "0") + ['\t'] + ("STOP" + ['\t'] + "Halts execution") == "0x0\tSTOP\tHalts execution"
  {
    assert "0x" + "0" == "0x0";
    assert "STOP" + ['\t'] + "Halts execution" == "STOP\tHalts execution";
  }

  lemma DescribeStopAtZero()
    ensures Describe(Stop(0)) == "0x0\tSTOP\tHalts execution"
  {
    var op := Stop(0);
    DescribeColumns(op);
    assert FormatHex(0) == "0";
    assert Mnemonic(op) == "STOP";
    assert Summary(op) == "Halts execution";
    StopLineColumns();
  }

  /** Disassembling the single byte 00 prints a STOP line, then END. */
  lemma DebugSingleStop()
    ensures Decodable([0x00], 0)
    ensures Listing(Trace([0x00], 0)) == ["0x0\tSTOP\tHalts execution", "END"]
  {
    var code: seq<Byte> := [0x00];
    assert Step(code, 0) == Fetched(Stop(0), 1);
    assert Trace(code, 0) == [Stop(0), End];
    DescribeStopAtZero();
  }

  /** The final state of the `interpret` driver, or the panic that ends it. */
  function Run(code: seq<Byte>, c: Config): Result<Config, Fault>
    decreases |code| - c.pc
  {
    if c.pc >= |code| then Ok(c)
    else
      match Exec1(code, c)
      case Err(e) => Err(e)
      case Ok(next) => Run(code, next)
  }

  /** A run that does not panic exits with pc at or past the end of the code, and no further. */
  lemma {:induction false} RunEndsPastCode(code: seq<Byte>, c: Config)
    requires Run(code, c).Ok?
    ensures Run(code, c).value.pc >= |code|
    ensures c.pc <= |code| ==> Run(code, c).value.pc <= |code| + 1
    decreases |code| - c.pc
  {
    if c.pc < |code| {
      RunEndsPastCode(code, Exec1(code, c).value);
    }
  }

  /** A run that does not panic walks the same instructions `debug` does, so `debug` does not panic either. */
  lemma {:induction false} RunDecodable(code: seq<Byte>, c: Config)
    requires Run(code, c).Ok?
    ensures Decodable(code, c.pc)
    decreases |code| - c.pc
  {
    if c.pc < |code| {
      RunDecodable(code, Exec1(code, c).value);
    }
  }

  /** A STOP inside the code does not halt the driver: the run goes on at the next byte. */
  lemma StopDoesNotHalt(code: seq<Byte>, pc: nat, stack: seq<Word>)
    requires pc < |code| && code[pc] == 0x00
    ensures Run(code, Config(pc, stack)) == Run(code, Config(pc + 1, stack))
  {
  }

  /** PUSH1 1, PUSH1 2, ADD leaves exactly [3] on the stack. */
  lemma RunPushPushAdd()
    ensures Run([0x60, 0x01, 0x60, 0x02, 0x01], Config(0, [])) == Ok(Config(5, [3]))
  {
    var code: seq<Byte> := [0x60, 0x01, 0x60, 0x02, 0x01];
    assert Step(code, 0) == Fetched(Push1(0, 1), 2);
    assert Exec1(code, Config(0, [])) == Ok(Config(2, [1]));
    assert Step(code, 2) == Fetched(Push1(2, 2), 4);
    assert [1] + [2] == [1, 2];
    assert Exec1(code, Config(2, [1])) == Ok(Config(4, [1, 2]));
    assert Step(code, 4) == Fetched(Add(4), 5);
    assert Exec1(code, Config(4, [1, 2])) == Ok(Config(5, [3]));
  }

  /** Running the single byte 00 leaves the stack empty. */
  lemma RunSingleStop()
    ensures Run([0x00], Config(0, [])) == Ok(Config(1, []))
  {
  }

  /** ADD on an empty stack panics (`unwrap` on `None`). */
  lemma RunAddOnEmptyStack()
    ensures Run([0x01], Config(0, [])) == Err(StackUnderflow)
  {
  }

  /** `interpret`: run `Vm::interpret` while pc is inside the code. */
  method Interpret(vm: Vm)
    requires Run(vm.code, vm.State()).Ok?
    modifies vm`pc, vm`stack
    ensures vm.State() == Run(vm.code, old(vm.State())).value
    ensures vm.pc >= |vm.code|
  {
    while vm.pc < |vm.code|
      invariant Run(vm.code, vm.State()) == Run(vm.code, old(vm.State()))
      decreases |vm.code| - vm.pc
    {
      vm.Interpret();
    }
  }
}
