# A verified model of a tree-walking Brainfuck interpreter

This project models `bf.py`, a small Brainfuck interpreter written in Python, and proves properties of the model. The interpreter has four parts:

- **Token stack** (`SourceCodeStack`). It stores the source bytes reversed and pops one byte per token.
- **Parser** (`CodeBlockNode.parse`). It is recursive descent. It turns the tokens into a tree of `CodeBlockNode`s (ordered children) and `WhileNode`s (one block each), with the leaves Plus, Minus, Forward, Backward and Print.
- **Context** (`Context`). It holds a byte tape, preloaded with the input data, and a pointer. Cell writes wrap modulo 256 and pointer writes wrap modulo the tape length.
- **Executor** (the `exec` methods). Each node updates the context in place. A loop re-runs its body while the current cell is nonzero.

Modules and files:

- `bytes.dfy` (`Bytes`): the byte type, byte wrap-around (`& 255`), and `reversed`.
- `tokens.dfy` (`Tokens`): `SourceCodeStack`, as a class whose `seq` field is popped at the end.
- `syntax.dfy` (`Syntax`): the tree as datatypes, the instruction bytes, and the canonical text of a tree (the parser's inverse, used in the round-trip lemmas).
- `parser.dfy` (`Parser`):
  - `ParseBlock`, the parse as a function. It returns the block, the unread tokens, and whether a `]` stopped it.
  - `Parse`, the imperative parser over the shared stack, proved equal to `ParseBlock`.
  - The parser lemmas.
- `context.dfy` (`Tape`): the abstract `State` and its update functions, and the `Context` class over an `array`.
- `semantics.dfy` (`Semantics`): execution as fuel-indexed functions, and the lemmas about them.
- `executor.dfy` (`Executor`): the `exec` methods as imperative methods, proved equal to `Semantics`.
- `interpreter.dfy` (`Interpreter`): `brainfuck` as a method, `Run` as the function it is proved equal to, and whole-program lemmas.

The model follows bf.py as written:

- There is no `,` (Read) instruction. A `,` that the parse reaches is a syntax error, like any other foreign byte.
- There is no cycle budget.
- There is no input stream. The input data is preloaded onto the tape.
- There is no flushing.
- An unmatched `[` and a stray `]` are both accepted silently, as the code does.

## Model

| member | source | states |
|---|---|---|
| Bytes.Wrap8 | bf.py:24-26 | the stored cell value is a byte congruent to the value modulo 256, and equal to it when it is already a byte |
| Bytes.WrapUndo | bf.py:107-113 | adding one and subtracting one with wrap-around, in either order, gives every byte back |
| Bytes.Reversed | bf.py:6 | the reversed buffer has the same length and holds element `i` at position `len-1-i` |
| Bytes.ReversedInvolutive | bf.py:6 | reversing twice gives the original bytes back |
| Tokens.SourceCodeStack.constructor | bf.py:5-6 | the unread tokens are exactly the source bytes, in source order |
| Tokens.SourceCodeStack.ReadNextToken | bf.py:8-9 | returns the first unread token and removes exactly that one byte |
| Tokens.SourceCodeStack.HasTokens | bf.py:11-12 | true exactly when unread bytes remain |
| Parser.ParseBlock | bf.py:52-84 | the parse never leaves more tokens unread than it was given, and a parse that did not stop at `]` consumed everything |
| Parser.ParseRest | bf.py:76-77 | the unread tokens are a suffix of the input, and a parse that stopped at `]` stopped right after a `]` byte, consuming only it |
| Parser.Parse | bf.py:51-84 | the imperative parser returns the block `ParseBlock` gives and leaves exactly its unread tokens on the stack, or fails exactly when `ParseBlock` raises SyntaxError |
| Parser.ParseLeaves | bf.py:55-72 | a text of `.+-<>` maps each byte to its leaf node, in token order, and consumes all input |
| Parser.ParseForeignAfter | bf.py:55-80 | a byte outside `.+-<>[]` right after bytes that parse to their end without a `]` stopping the top-level block makes the parse fail, whatever follows |
| Parser.ParseForeign | bf.py:79-80 | a byte outside `.+-<>[]` (for example `,`) at a position the top-level parse reaches makes the parse fail, as in `[-],` |
| Parser.ParseTotal | bf.py:55-77 | a source made only of `.+-<>[]` always parses |
| Parser.ParseTruncate | bf.py:76-77 | a parse stopped by `]` gives the same block from the bytes up to that `]` alone, and the unread tokens are exactly the bytes after it |
| Parser.ParseFailsAt | bf.py:79-80 | every SyntaxError comes from a byte outside `.+-<>[]` that the top-level parse reaches: the bytes before it parse to their end without a `]` stopping the block |
| Parser.ParseUnparseAppend | bf.py:73-82 | the canonical text of a node sequence followed by any bytes parses to those nodes, then whatever the bytes parse to; `[` wraps the recursively parsed block |
| Parser.ParseUnparse | bf.py:52-84 | round trip: the canonical text of any block parses back to that block, consuming all input |
| Parser.StrayClose | bf.py:76-77 | a `]` after a complete text ends the block, consumes only itself, and leaves every later byte unread |
| Parser.UnmatchedOpen | bf.py:55-84 | an unmatched `[` is accepted: when the bytes after it parse to their end without a `]` stopping them, its loop body is everything up to the end of input, further unmatched `[` nested inside |
| Parser.UnmatchedOpenTwice | bf.py:73-74 | `[[` parses to two nested loops with nothing left unread |
| Parser.UnmatchedOpenCanonical | bf.py:73-74 | `[` before the canonical text of any block gives one loop around exactly that block |
| Parser.ParseExtend | bf.py:55-80 | appending bytes does not change a parse that already failed or already stopped at `]` |
| Tape.InitialTape | bf.py:16 | the tape is the input data followed by zeros; its length is `buffer_size`, or the data length when that is larger |
| Tape.StoreCell | bf.py:23-26 | the cell under the pointer becomes the value modulo 256; the pointer, output and every other cell are unchanged |
| Tape.MovePointer | bf.py:32-35 | the pointer stays in range; it wraps from -1 to `len-1` and from `len` to 0; the tape is unchanged |
| Tape.Context.constructor | bf.py:15-17 | the new context holds `InitialTape(data, buffer_size)`, pointer 0, and no output |
| Tape.Context.CurrentValue | bf.py:19-21 | the getter returns the byte under the pointer |
| Tape.Context.SetCurrentValue | bf.py:23-26 | the array now holds exactly `StoreCell` of the old state |
| Tape.Context.SetPointer | bf.py:32-35 | the pointer is now exactly `MovePointer` of the old state, and the array is untouched |
| Semantics.Eval | bf.py:107-125 | every node's effect keeps the pointer in range and the tape length fixed, and only appends to the output |
| Semantics.EvalBlock | bf.py:86-88 | running the children in order keeps the pointer in range and the tape length fixed, and only appends to the output |
| Semantics.EvalWhile | bf.py:100-102 | the loop keeps the pointer in range and the tape length fixed, and only appends to the output |
| Semantics.PlusMinusRestores | bf.py:107-113 | Plus then Minus, and Minus then Plus, give back the original state, at 0 and 255 too |
| Semantics.CellWraps | bf.py:24-26 | Minus on 0 gives 255 and Plus on 255 gives 0, with only the current cell changed |
| Semantics.PointerWraps | bf.py:115-121 | Backward from 0 goes to `len-1` and Forward from `len-1` goes to 0; otherwise the pointer moves by one; the tape never changes |
| Semantics.PrintEmits | bf.py:123-125 | Print leaves tape and pointer alone and emits the current cell |
| Semantics.WhileOnZeroSkips | bf.py:100-102 | a loop entered on a zero cell runs its body zero times |
| Semantics.WhileEndsOnZero | bf.py:100-102 | whenever a loop finishes, the current cell is 0 |
| Semantics.BlockSequential | bf.py:86-88 | a block of `a + c` runs `a` once and then `c` once, on the state `a` leaves |
| Semantics.EvalFuelMonotone | bf.py:107-125 | a node execution that finishes with some fuel finishes with the same state given more fuel; with less fuel, the output is a prefix of the output with more |
| Semantics.EvalBlockFuelMonotone | bf.py:86-88 | a block execution that finishes with some fuel finishes with the same state given more fuel; with less fuel, the output is a prefix of the output with more |
| Semantics.EvalWhileFuelMonotone | bf.py:100-102 | a loop that finishes with some fuel finishes with the same state given more fuel; with less fuel, the output is a prefix of the output with more |
| Semantics.PrintLoopKeepsPrinting | bf.py:100-125 | `[.]` on a nonzero cell never finishes: with any fuel it has printed that cell once per pass and is still looping |
| Semantics.EchoLoop | bf.py:100-102 | the loop `[.>]` prints the cells from the pointer up to the first zero cell and stops on that zero cell |
| Executor.ExecNode | bf.py:107-125 | executing any node in place leaves exactly the state `Eval` gives; when a loop runs out of fuel it reports so, and the context holds the state reached so far, output included |
| Executor.ExecBlock | bf.py:86-88 | the `for` loop over the children leaves exactly the state `EvalBlock` gives from the old state, finished or stopped for fuel |
| Executor.ExecWhile | bf.py:100-102 | the `while` loop on the current cell leaves exactly the state `EvalWhile` gives from the old state, finished or stopped for fuel |
| Interpreter.Run | bf.py:127-132 | a run raises SyntaxError exactly when the parse does; a tape error is possible only for an empty tape (that a run out of fuel keeps what it printed is stated by `RunFuelMonotone`, not by this contract) |
| Interpreter.Brainfuck | bf.py:127-132 | the imperative entry point (stack, parse, context, exec) produces exactly the outcome `Run` gives |
| Interpreter.RunRejectsForeign | bf.py:128-132 | a foreign byte that the top-level parse reaches ends the run with SyntaxError, before anything runs or prints |
| Interpreter.RunSyntaxErrorAt | bf.py:128-129 | a run that raises SyntaxError has such a reached foreign byte, at the position returned |
| Interpreter.RunAcceptsInstructions | bf.py:128-129 | a source made only of `.+-<>[]` never raises SyntaxError |
| Interpreter.RunRejectsReadAfterLoop | bf.py:79-80 | `[-],` raises SyntaxError: the `,` after a complete loop is reached |
| Interpreter.RunIgnoresAfterClose | bf.py:129 | once the top-level parse stopped at `]`, appending any bytes, even invalid ones, does not change the run |
| Interpreter.RunStrayClose | bf.py:76-77 | a stray `]` after a complete program makes the run that of the program alone; a source starting with `]` prints nothing |
| Interpreter.RunFuelMonotone | bf.py:127-132 | a run that finished with some fuel finishes the same way given more fuel; a run that ran out of fuel had printed a prefix of what it prints with more |
| Interpreter.ParseEcho | bf.py:135 | `[.>]` parses to one loop whose body is Print then Forward |
| Interpreter.RunEcho | bf.py:134-135 | `[.>]` prints the preloaded data back when it holds no zero byte and fits in the tape, given fuel for one pass per byte |

## Left out

- Divergence: `WhileNode.exec` can loop forever. Execution here takes a `fuel` bound instead, one unit per loop pass. `FuelExhausted` and a false `ok` mean only that the bound was reached. The source has no such outcome. `FuelExhausted` carries the bytes printed before the bound was reached, as the console would show them. The fuel lemmas show that a run which finishes does not depend on the bound.
- Output: `print(end=chr(v))` is modelled as appending the byte `v` to `Context.output`. Character encoding and stdout buffering are host I/O. The output lives in the context only so the model can name it.
- Empty tape: with `buffer_size <= 0` and no data, the first node run raises IndexError or ZeroDivisionError. Both become one outcome, `RaisedTapeError`. The context methods therefore require a non-empty tape.
- Tokens.SourceCodeStack.ReadNextToken: requires a non-empty stack. Popping an empty `bytearray` raises IndexError, and the parser always checks `HasTokens` before popping.
- Tape.MovePointer: its contract states the wrap cases and in-range values, not `value % len` for every integer. The executor only ever passes the pointer plus or minus one.
- Python's recursion limit: very deeply nested `[` would raise RecursionError in the parser or executor. This is not modelled.
- The `__main__` block's `input()` and `.encode()` (bf.py:134-135) are console glue. The program it runs, `[.>]`, is covered by `ParseEcho` and `RunEcho`.
- `__str__` and `__repr__` (bf.py:41-45, 90-94, 104-105) are debug formatting and are not modelled.
- Default arguments (`buffer_size = 2 ** 16`, `input_data = b""`) are not modelled. The entry point takes every argument explicitly.
- Nodes are datatype values, and their `exec` methods are module-level methods that match on the node kind. Python's dynamic dispatch is not modelled.
