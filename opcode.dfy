/**
 * The instruction variants (src/evm/opcode.rs) and `describe`, which renders
 * one disassembly line per variant. Printing is modelled by returning the
 * line, without the newline `println!` appends.
 */
module Opcodes {
  import opened Words
  import Hex

  /**
   * The closed set of variants. Every variant except End carries the code
   * offset it was decoded at; the PUSH variants also carry their immediate
   * bytes. MSTORE, MSTORE8 and PUSH32 exist only as comments in the source
   * and MLOAD not at all, so none of them has a variant here.
   */
  datatype Opcode =
    | Stop(addr: nat)
    | Add(addr: nat)
    | Mul(addr: nat)
    | Push1(addr: nat, value: Byte)
    | Push2(addr: nat, value0: Byte, value1: Byte)
    | Unknown(addr: nat)
    | End

  /** Encoded length in bytes: opcode byte plus immediates; End is not encoded. */
  function Width(op: Opcode): nat
  {
    match op
    case End => 0
    case Push1(_, _) => 2
    case Push2(_, _, _) => 3
    case _ => 1
  }

  /** The value of a string of hex digits, most significant first. */
  function HexValue(s: string): nat
    requires forall i :: 0 <= i < |s| ==> Hex.IsHexDigit(s[i])
  {
    if s == [] then 0 else HexValue(s[..|s| - 1]) * 16 + Hex.DigitValue(s[|s| - 1])
  }

  /** Rust's `{:x}`: lower-case hex digits, no leading zeros, "0" for zero. */
  function FormatHex(n: nat): (s: string)
    ensures |s| >= 1
    ensures forall i :: 0 <= i < |s| ==> Hex.IsHexDigit(s[i]) && !('A' <= s[i] <= 'F')
    ensures s[0] == '0' <==> n == 0
    ensures n == 0 ==> s == "0"
    ensures HexValue(s) == n
    decreases n
  {
    if n < 16 then
      [Hex.HexChar(n)]
    else
      var hi := FormatHex(n / 16);
      assert (hi + [Hex.HexChar(n % 16)])[..|hi|] == hi;
      hi + [Hex.HexChar(n % 16)]
  }

  function Mnemonic(op: Opcode): string
    requires !op.End?
  {
    match op
    case Stop(_) => "STOP"
    case Add(_) => "ADD"
    case Mul(_) => "MUL"
    case Push1(_, _) => "PUSH1"
    case Push2(_, _, _) => "PUSH2"
    case Unknown(_) => "UNKNOWN"
  }

  /** The free-text third column; the PUSH variants append their immediates. */
  function Summary(op: Opcode): string
    requires !op.End?
  {
    match op
    case Stop(_) => "Halts execution"
    case Add(_) => "Addition operation"
    case Mul(_) => "Multiplication operation"
    case Push1(_, x) => "Place 1-byte item on the stack 0x" + FormatHex(x)
    case Push2(_, x0, x1) => "Place 2-bytes item on the stack 0x" + FormatHex(x0) + " 0x" + FormatHex(x1)
    case Unknown(_) => "Opcode not found"
  }

  /** Neither a tab nor a newline occurs in s. */
  predicate Plain(s: string)
  {
    forall i :: 0 <= i < |s| ==> s[i] != '\n' && s[i] != '\t'
  }

  lemma PlainConcat(a: string, b: string)
    requires Plain(a) && Plain(b)
    ensures Plain(a + b)
  {
    forall i | 0 <= i < |a + b|
      ensures (a + b)[i] != '\n' && (a + b)[i] != '\t'
    {
      if i >= |a| {
        assert (a + b)[i] == b[i - |a|];
      }
    }
  }

  lemma PlainHasNoSeparator(s: string)
    requires Plain(s)
    ensures '\t' !in s && '\n' !in s
  {
  }

  lemma FormatHexPlain(n: nat)
    ensures Plain(FormatHex(n))
  {
  }

  lemma MnemonicPlain(op: Opcode)
    requires !op.End?
    ensures Plain(Mnemonic(op))
  {
  }

  lemma SummaryPlain(op: Opcode)
    requires !op.End?
    ensures Plain(Summary(op))
  {
    match op
    case Stop(_) =>
      assert Plain("Halts execution");
    case Add(_) =>
      assert Plain("Addition operation");
    case Mul(_) =>
      assert Plain("Multiplication operation");
    case Push1(_, x) =>
      assert Plain("Place 1-byte item on the stack 0x");
      FormatHexPlain(x);
      PlainConcat("Place 1-byte item on the stack 0x", FormatHex(x));
    case Push2(_, x0, x1) =>
      var p := "Place 2-bytes item on the stack 0x";
      assert Plain(p) && Plain(" 0x");
      FormatHexPlain(x0);
      FormatHexPlain(x1);
      PlainConcat(p, FormatHex(x0));
      PlainConcat(p + FormatHex(x0), " 0x");
      PlainConcat(p + FormatHex(x0) + " 0x", FormatHex(x1));
    case Unknown(_) =>
      assert Plain("Opcode not found");
  }

  /**
   * `describe`: "0x<addr>\t<MNEMONIC>\t<summary>" for every variant that has
   * an address, and "Error" for End, which falls into the wildcard arm.
   */
  function Describe(op: Opcode): string
  {
    if op.End? then "Error"
    else "0x" + FormatHex(op.addr) + "\t" + Mnemonic(op) + "\t" + Summary(op)
  }

  /** No newline occurs in s: it prints as a single line. */
  predicate OneLine(s: string)
  {
    forall i :: 0 <= i < |s| ==> s[i] != '\n'
  }

  /** Three tab-free, newline-free columns joined by tabs make one line. */
  lemma JoinedColumnsOneLine(a: string, m: string, t: string)
    requires Plain(a) && Plain(m) && Plain(t)
    ensures OneLine(a + ['\t'] + (m + ['\t'] + t))
  {
    var line := a + ['\t'] + (m + ['\t'] + t);
    forall i | 0 <= i < |line|
      ensures line[i] != '\n'
    {
      if i < |a| {
        assert line[i] == a[i];
      } else if i > |a| {
        var j := i - |a| - 1;
        if j < |m| {
          assert line[i] == m[j];
        } else if j > |m| {
          assert line[i] == t[j - |m| - 1];
        }
      }
    }
  }

  lemma StartsWith0x(x: string, rest: string)
    requires |x| >= 1
    ensures |"0x" + x + rest| > 2
    ensures ("0x" + x + rest)[..2] == "0x"
    ensures "0x" + x + rest != "Error"
  {
    assert ("0x" + x + rest)[0] == '0';
    assert ("0x" + x + rest)[1] == 'x';
  }

  /** A described opcode is one line. */
  lemma DescribeOneLine(op: Opcode)
    ensures OneLine(Describe(op))
  {
    if !op.End? {
      var x, m, t := FormatHex(op.addr), Mnemonic(op), Summary(op);
      assert Plain("0x");
      FormatHexPlain(op.addr);
      MnemonicPlain(op);
      SummaryPlain(op);
      PlainConcat("0x", x);
      DescribeColumns(op);
      JoinedColumnsOneLine("0x" + x, m, t);
    }
  }

  /** "Error" is printed exactly for END; every other line starts with "0x". */
  lemma DescribeError(op: Opcode)
    ensures Describe(op) == "Error" <==> op.End?
    ensures !op.End? ==> |Describe(op)| > 2 && Describe(op)[..2] == "0x"
  {
    if !op.End? {
      var x := FormatHex(op.addr);
      var rest := ['\t'] + (Mnemonic(op) + ['\t'] + Summary(op));
      DescribeColumns(op);
      StartsWith0x(x, rest);
    }
  }

  /** The fields of a line, split at every `sep`. */
  function Split(s: string, sep: char): (parts: seq<string>)
    ensures |parts| >= 1
  {
    if s == [] then [[]]
    else if s[0] == sep then [[]] + Split(s[1..], sep)
    else
      var rest := Split(s[1..], sep);
      [[s[0]] + rest[0]] + rest[1..]
  }

  lemma {:induction false} SplitNoSep(a: string, sep: char)
    requires sep !in a
    ensures Split(a, sep) == [a]
  {
    if a != [] {
      SplitNoSep(a[1..], sep);
      assert [a[0]] + a[1..] == a;
    }
  }

  lemma {:induction false} SplitAtSep(a: string, sep: char, b: string)
    requires sep !in a
    ensures Split(a + [sep] + b, sep) == [a] + Split(b, sep)
  {
    if a == [] {
      assert a + [sep] + b == [sep] + b;
      assert ([sep] + b)[1..] == b;
    } else {
      var s := a + [sep] + b;
      assert s[1..] == a[1..] + [sep] + b;
      SplitAtSep(a[1..], sep, b);
      assert [a[0]] + a[1..] == a;
    }
  }

  lemma DescribeColumns(op: Opcode)
    requires !op.End?
    ensures Describe(op) == ("0x" + FormatHex(op.addr)) + ['\t'] + (Mnemonic(op) + ['\t'] + Summary(op))
  {
  }

  /**
   * A described line splits at its tabs into exactly three fields: the
   * "0x"-prefixed address, which reads back as the opcode's address, the
   * mnemonic and the summary.
   */
  lemma DescribeFields(op: Opcode)
    requires !op.End?
    ensures Split(Describe(op), '\t') == ["0x" + FormatHex(op.addr), Mnemonic(op), Summary(op)]
    ensures HexValue(Split(Describe(op), '\t')[0][2..]) == op.addr
  {
    var a, m, t := "0x" + FormatHex(op.addr), Mnemonic(op), Summary(op);
    assert Plain("0x");
    FormatHexPlain(op.addr);
    PlainConcat("0x", FormatHex(op.addr));
    MnemonicPlain(op);
    SummaryPlain(op);
    PlainHasNoSeparator(a);
    PlainHasNoSeparator(m);
    PlainHasNoSeparator(t);
    DescribeColumns(op);
    SplitAtSep(a, '\t', m + ['\t'] + t);
    SplitAtSep(m, '\t', t);
    SplitNoSep(t, '\t');
    assert a[2..] == FormatHex(op.addr);
  }
}
