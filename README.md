# rust-evm in Dafny

A model of a tutorial interpreter for a small part of the Ethereum Virtual
Machine instruction set (STOP 0x00, ADD 0x01, MUL 0x02, PUSH1 0x60, PUSH2
0x61). The model covers:

- the hex decoder that turns the contract text into bytecode;
- the fetch-decode step `Vm::next`;
- the one-step interpreter `Vm::interpret` over a stack of 256-bit words;
- the stand-alone growable byte memory;
- the opcode type and its one-line description;
- the two driver loops of `main.rs`, `debug` and `interpret`;
- the older disassembler in `decompile.rs`.

Files and modules:

| file | module | models |
|---|---|---|
| results.dfy | `Results` | Option and Result |
| words.dfy | `Words` | `u8` and `U256` as bounded naturals, big-endian conversion |
| hex.dfy | `Hex` | `decode` |
| opcode.dfy | `Opcodes` | `Opcode`, `describe`, `{:x}` formatting |
| vm.dfy | `Machine` | the `Vm` class: `next` and `interpret` |
| memory.dfy | `EvmMemory` | the `Memory` class |
| main.dfy | `Driver` | `debug` and `interpret` in `main.rs` |
| decompile.dfy | `Decompile` | `Opcode`, `Vm::next` and the `run` loop of `decompile.rs` |

The state the source changes in place is modelled as classes. `Vm` has the
fields `code`, `pc` and `stack`, and `Memory` has the field `data`. Each
method is proved against a pure function of the old state:

- `Vm::next` against `Step`.
- `Vm::interpret` against `Exec1` (built from `Apply`).
- `debug` against `Trace` and `Listing`.
- `interpret` (the driver) against `Run`.
- The `decompile.rs` loop against `Shown`.

The properties are proved about those functions.

Panics are modelled as follows:

- `Vm::next` indexes `code[pc+1]` for PUSH1 and PUSH2. At the last byte that index is out of bounds.
- `Vm::interpret` calls `pop().unwrap()` for ADD, which fails on a short stack.
- The U256 `+` for ADD panics on overflow.

Only `Machine.Apply`, `Machine.Exec1` and `Driver.Run` return these as
`Fault` values (`IndexOutOfBounds`, `StackUnderflow`, `Overflow`). The
fetch-decode functions `Machine.Step` and `Decompile.Step` instead require
`ImmediateInBounds`, which says the index fault cannot occur at pc. The walks
built on them, `Driver.Trace` and `Decompile.Shown`, require `Decodable`,
which says it cannot occur anywhere along the walk. The methods require that
no fault occurs.

Where the code departs from the EVM instruction set it imitates, the model follows the code:

- `decode` drops an odd trailing character instead of rejecting it.
- PUSH2 reads `code[pc+1]` twice and never reads `code[pc+2]`, yet advances by 3 (`Machine.Push2ReadsOneByte`).
- STOP does not halt the `interpret` driver; it runs while `pc < len` (`Driver.StopDoesNotHalt`).
- MUL changes nothing in `Vm::interpret`.
- ADD does not wrap modulo 2^256; the U256 `+` panics on overflow.
- MSTORE (0x52), MSTORE8 (0x53) and PUSH32 (0x7f) exist only as commented-out arms and variants. MLOAD (0x51) does not appear in the source at all. All four bytes reach the wildcard arm and decode as UNKNOWN (`Machine.MemoryAndPush32BytesAreUnknown`). The `Vm` has no memory field, so the interpreter never touches the `Memory` type.
- A PUSH1 or PUSH2 byte at the very end of the code panics, rather than being treated as END.
- `u8::from_str_radix` accepts a leading `+`, so a pair "+d" decodes to the value of the digit d, "+f" to 15 (`Hex.DecodeAcceptsPlusSign`).

## Model

| member | source | states |
|---|---|---|
| `Hex.ParsePair` | src/evm/vm.rs:15 | a two-character pair parses iff its second character is a hex digit and its first is a hex digit or '+' |
| `Hex.DecodePairsSpec` | src/evm/vm.rs:13-16 | collecting the pair parses succeeds iff every pair parses; then it yields one byte per pair, in order |
| `Hex.Decode` | src/evm/vm.rs:10-17 | on a non-empty ASCII string: an error iff some pair among the first ⌊n/2⌋ fails to parse; otherwise ⌊n/2⌋ bytes, byte k being the parse of characters 2k and 2k+1 |
| `Hex.DecodeHexDigits` | src/evm/vm.rs:13-16 | when the first 2⌊n/2⌋ characters are hex digits, decoding succeeds with byte k = 16·digit(s[2k]) + digit(s[2k+1]) |
| `Hex.DecodeIgnoresTrailingChar` | src/evm/vm.rs:13-14 | appending one character to an even-length input does not change the result |
| `Hex.DecodeEncode` | src/evm/vm.rs:10-17 | decoding the lower-case hex encoding of a non-empty byte string gives the bytes back |
| `Hex.EncodeDecode` | src/evm/vm.rs:10-17 | re-encoding the decoding of an even-length string of hex digits gives the string back in lower case |
| `Hex.DecodeAcceptsPlusSign` | src/evm/vm.rs:15 | the library's sign handling: for every hex digit d, the two-character input "+d" decodes to the single byte whose value is d |
| `Words.FromToBigEndian` | src/evm/memory.rs:34-36 | the len-byte big-endian encoding of a value below 256^len decodes back to the value |
| `Words.ToFromBigEndian` | src/evm/memory.rs:26-28 | the big-endian value of a byte string, re-encoded at the same length, gives the string back |
| `Words.FromBigEndianBound` | src/evm/memory.rs:26-28 | a string of k bytes has a big-endian value below 256^k, so 32 bytes always fit in a word |
| `Opcodes.FormatHex` | src/evm/opcode.rs:25 | `{:x}`: lower-case hex digits, at least one, a leading '0' only for zero, zero printed as the single digit "0", and the digits read back as the number |
| `Opcodes.Describe` | src/evm/opcode.rs:23-33 | `describe`: "0x" + `{:x}` of the address, a tab, the mnemonic, a tab and the summary, for every variant with an address; the PUSH summaries end with "0x" + `{:x}` of each immediate; END falls into the wildcard arm and gives "Error". Its contract is stated by the three lemmas `DescribeFields`, `DescribeError` and `DescribeOneLine` below |
| `Opcodes.DescribeOneLine` | src/evm/opcode.rs:23-33 | every description, of every variant, is a single line: no newline occurs in it |
| `Opcodes.DescribeError` | src/evm/opcode.rs:23-33 | the description is "Error" exactly for END; every other description starts with "0x" |
| `Opcodes.DescribeFields` | src/evm/opcode.rs:25-30 | a non-END line splits at its tabs into exactly "0x"+hex(addr), the mnemonic and the summary; the first field reads back as the address |
| `Machine.Step` | src/evm/vm.rs:46-98 | END iff pc is at or past the end of the code, pc unchanged; any other opcode is tagged with the old pc and pc advances by its width (1, 2 or 3), to at most len+1 |
| `Machine.StepTable` | src/evm/vm.rs:53-96 | 00/01/02 give STOP/ADD/MUL with pc+1; 60 gives PUSH1 of code[pc+1] with pc+2; 61 gives PUSH2 of code[pc+1] twice with pc+3; any other byte gives UNKNOWN with pc+1 |
| `Machine.MemoryAndPush32BytesAreUnknown` | src/evm/vm.rs:66-96 | bytes 51 (no arm at all), 52, 53 and 7f (arms commented out) reach the wildcard arm and decode as UNKNOWN with pc+1 |
| `Machine.Push2ReadsOneByte` | src/evm/vm.rs:84-89 | PUSH2 with at least one following byte (including as the second-to-last byte) decodes without a panic, and both immediates equal code[pc+1]; when a byte at pc+2 exists it has no influence on the step |
| `Machine.Apply` | src/evm/vm.rs:111-128 | PUSH1 pushes its byte on top, keeping the stack below; ADD on fewer than two entries is a stack underflow; ADD otherwise fails exactly on overflow, or replaces the top two by their sum, keeping the entries below; every other opcode leaves the stack unchanged |
| `Machine.Exec1` | src/evm/vm.rs:102-129 | one interpreter step fails with an index fault exactly when a PUSH at pc has no following byte; it is a no-op at or past the end; on success inside the code it advances pc by 1 to 3 |
| `Machine.Vm.constructor` | src/evm/vm.rs:39 | a fresh machine has the given code, pc 0 and an empty stack |
| `Machine.Vm.Next` | src/evm/vm.rs:46-98 | the returned opcode and the new pc are those of Step at the old pc; code and stack are not changed |
| `Machine.Vm.Interpret` | src/evm/vm.rs:102-129 | the new pc and stack are those of Exec1 on the old state; code is not changed |
| `EvmMemory.Memory.constructor` | src/evm/memory.rs:16-18 | a new memory is empty |
| `EvmMemory.Memory.Resize` | src/evm/memory.rs:20-24 | the length becomes max(old length, n); the old bytes are kept and the new ones are zero; when n is at most the length nothing changes |
| `EvmMemory.Memory.GetWord` | src/evm/memory.rs:26-28 | the result is the word whose 32-byte big-endian encoding is data[addr..addr+32] |
| `EvmMemory.Memory.SetByte` | src/evm/memory.rs:30-32 | byte addr becomes b; no other byte and not the length changes |
| `EvmMemory.Memory.SetWord` | src/evm/memory.rs:34-41 | data[addr..addr+32] becomes the big-endian encoding of w; no other byte and not the length changes; GetWord(addr) then returns w |
| `Driver.TraceShape` | src/main.rs:11-19 | the opcodes `debug` receives end with the only END; all others lie inside the code at or after the start, at strictly increasing offsets |
| `Driver.TraceLength` | src/main.rs:11-20 | `debug` calls `next` at most len−pc+1 times, and exactly once when it starts at or past the end |
| `Driver.TraceContinuesPastStop` | src/main.rs:18 | STOP and UNKNOWN are listed and the walk continues at the next byte |
| `Driver.DebugOutputShape` | src/main.rs:11-19 | the printed lines end with the only "END" line; every other line is a single-line description starting with "0x" |
| `Driver.DebugSingleStop` | src/main.rs:11-19 | the bytecode 00 prints "0x0\tSTOP\tHalts execution" and then "END" |
| `Driver.Debug` | src/main.rs:9-23 | the lines printed are the listing of the trace from the start pc; pc ends at or past the end of the code |
| `Driver.RunEndsPastCode` | src/main.rs:27-29 | a run that does not panic ends with pc at least len, and at most len+1 when it starts inside the code |
| `Driver.RunDecodable` | src/main.rs:27-29 | a run that does not panic implies the `debug` walk from the same pc does not panic either |
| `Driver.StopDoesNotHalt` | src/main.rs:27-29 | a STOP inside the code only advances pc: the run continues with the same stack |
| `Driver.RunPushPushAdd` | src/main.rs:27-29 | the bytecode 60 01 60 02 01 ends with pc 5 and the stack exactly [3] |
| `Driver.RunSingleStop` | src/main.rs:27-29 | the bytecode 00 ends with an empty stack |
| `Driver.RunAddOnEmptyStack` | src/evm/vm.rs:117-120 | ADD on an empty stack is a stack underflow |
| `Driver.Interpret` | src/main.rs:25-31 | the final pc and stack are those Run computes; the loop exits with pc at or past the end of the code |
| `Decompile.Step` | decompile.rs:77-128 | moves pc exactly as the vm.rs step does and returns the same opcode, except None for an unknown byte; Some(END) iff pc is at or past the end |
| `Decompile.ShownIsKnownTrace` | decompile.rs:144-154 | the opcodes the `run` loop describes are the vm.rs trace with UNKNOWN and END dropped |
| `Decompile.ShownLength` | decompile.rs:144-154 | at most len−pc opcodes are described, and none of them is END |
| `Decompile.Vm.constructor` | decompile.rs:70 | a fresh machine has the given code and pc 0 |
| `Decompile.Vm.Next` | decompile.rs:77-128 | the returned value and new pc are those of Decompile.Step at the old pc; code is not changed |
| `Decompile.Run` | decompile.rs:144-154 | the loop describes exactly Shown from the start pc, skipping None, and stops at Some(END) with pc at or past the end |

## Left out

- `Vm::new_from_file` (src/evm/vm.rs:30-40, decompile.rs:62-71): file I/O. The constructors model the machine it builds from already-decoded bytes.
- `run` and `main` in src/main.rs and decompile.rs: argument parsing and mode dispatch, which are command-line glue.
- `print_stack` and the debugging `println!` calls in `new_from_file`, `next` and `interpret` print only. `describe` and the `debug` loop return the lines they would print, without the newline.
- `describe` in decompile.rs (decompile.rs:41-50) prints only. Its run loop is modelled as returning the opcodes it would describe.
- `decode` in decompile.rs (decompile.rs:12-19) is the same text as in src/evm/vm.rs and is modelled once, by `Hex.Decode`.
- U256 `from_big_endian`, `to_big_endian` and `+` come from a foreign library. Words are naturals below 2^256 with their own big-endian conversion. The `+` is modelled as panicking on overflow.
- MLOAD has no arm or variant, and MSTORE, MSTORE8 and PUSH32 exist only as comments, so none of the four is modelled. The interpreter has no memory. `Memory` is modelled on its own, as the stand-alone type it is in memory.rs.
- The memory layout comment in memory.rs describes a convention that nothing enforces.
- `Hex.Decode`: non-ASCII input is excluded by precondition. Slicing a `str` off a character boundary panics.
- `Hex.Decode`: the empty string is excluded by precondition. `s.len()-1` underflows and the source panics.
- `Hex.Decode`: the `ParseIntError` value is modelled only by its kind, `InvalidDigit`, the only kind a two-character slice can produce.
- `Machine.Vm.Next`, `Machine.Vm.Interpret`, `Driver.Debug`, `Driver.Interpret`, `Decompile.Run`: a panic aborts the process, so these methods require that none occurs. The state a panic leaves behind is not modelled.
- `pc` and the addresses are unbounded naturals rather than `usize`. `pc` never exceeds the code length + 1, so the width never matters.
- `Vec` fields are modelled as `seq` fields that the methods reassign. Aliasing of the underlying buffers is not modelled.
