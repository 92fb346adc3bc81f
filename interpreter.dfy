/** The entry point of bf.py: `brainfuck(code, input_data, buffer_size)`. */
module Interpreter {
  import opened Bytes
  import opened Syntax
  import opened Tokens
  import opened Parser
  import opened Tape
  import opened Semantics
  import opened Executor

  /** How a run ends: the bytes it printed, or the exception it raised
      (SyntaxError from the parser; IndexError or ZeroDivisionError from the
      first node run on an empty tape), or the fuel ran out in a loop, with
      the bytes printed up to that point. */
  datatype Outcome =
    | Finished(output: seq<byte>)
    | RaisedSyntaxError
    | RaisedTapeError
    | FuelExhausted(output: seq<byte>)

  /** The outcome of running `code` with the tape preloaded with `inputData`.
      The parse of the top-level block decides the program; any bytes it
      left unread after a stray `]` are ignored. */
  function Run(code: seq<byte>, inputData: seq<byte>, bufferSize: int, fuel: nat): (r: Outcome)
    ensures r.RaisedSyntaxError? <==> ParseBlock(code).SyntaxError?
    ensures r.RaisedTapeError? ==> bufferSize <= 0 && inputData == []
  {
    match ParseBlock(code)
    case SyntaxError => RaisedSyntaxError
    case Ok(program, _, _) =>
      var tape := InitialTape(inputData, bufferSize);
      if |tape| == 0 then
        if program.children == [] then Finished([]) else RaisedTapeError
      else
        match EvalBlock(program.children, State(tape, 0, []), fuel)
        case OutOfFuel(stopped) => FuelExhausted(stopped.output)
        case Done(last) => Finished(last.output)
  }

  /** `brainfuck`: parse the whole source, then build the context and run. */
  method Brainfuck(code: seq<byte>, inputData: seq<byte>, bufferSize: int, fuel: nat) returns (r: Outcome)
    ensures r == Run(code, inputData, bufferSize, fuel)
  {
    var sourceCode := new SourceCodeStack(code);
    var parsed := Parse(sourceCode);
    if parsed.Failed? {
      return RaisedSyntaxError;
    }
    var codeBlock := parsed.block;
    var context := new Context(bufferSize, inputData);
    if context.buffer.Length == 0 {
      return if codeBlock.children == [] then Finished([]) else RaisedTapeError;
    }
    var ok := ExecBlock(codeBlock, context, fuel);
    if !ok {
      return FuelExhausted(context.output);
    }
    return Finished(context.output);
  }

  /** A byte outside `.+-<>[]` (`,` among them) that the top-level parse
      reaches stops the run at parse time: nothing is executed, nothing
      printed. */
  lemma RunRejectsForeign(code: seq<byte>, k: nat, inputData: seq<byte>, bufferSize: int, fuel: nat)
    requires k < |code| && !IsInstructionToken(code[k])
    requires ParseBlock(code[..k]).Ok? && !ParseBlock(code[..k]).closed
    ensures Run(code, inputData, bufferSize, fuel) == RaisedSyntaxError
  {
    ParseForeign(code, k);
  }

  /** A run raises SyntaxError only because of such a byte: the position
      returned holds a foreign byte that the top-level parse reaches. */
  lemma RunSyntaxErrorAt(code: seq<byte>, inputData: seq<byte>, bufferSize: int, fuel: nat) returns (k: nat)
    requires Run(code, inputData, bufferSize, fuel) == RaisedSyntaxError
    ensures k < |code| && !IsInstructionToken(code[k])
    ensures ParseBlock(code[..k]).Ok? && !ParseBlock(code[..k]).closed
  {
    k := ParseFailsAt(code);
  }

  /** A source made only of `.+-<>[]` never raises SyntaxError. */
  lemma RunAcceptsInstructions(code: seq<byte>, inputData: seq<byte>, bufferSize: int, fuel: nat)
    requires forall i :: 0 <= i < |code| ==> IsInstructionToken(code[i])
    ensures Run(code, inputData, bufferSize, fuel) != RaisedSyntaxError
  {
    ParseTotal(code);
  }

  /** `[-],`: the `,` after a complete loop is reached, so the run raises
      SyntaxError although the source contains a `]`. */
  lemma RunRejectsReadAfterLoop(inputData: seq<byte>, bufferSize: int, fuel: nat)
    ensures Run([OpenToken, MinusToken, CloseToken, 44], inputData, bufferSize, fuel) == RaisedSyntaxError
  {
    var code: seq<byte> := [OpenToken, MinusToken, CloseToken, 44];
    var loop := Block([While(Block([Minus]))]);
    assert UnparseSeq([Minus]) == [MinusToken];
    assert UnparseSeq(loop.children) == code[..3];
    ParseUnparse(loop);
    RunRejectsForeign(code, 3, inputData, bufferSize, fuel);
  }

  /** Once the top-level parse has stopped at a `]`, whatever follows is
      never parsed or executed, even bytes that would be a syntax error. */
  lemma RunIgnoresAfterClose(code: seq<byte>, q: seq<byte>, inputData: seq<byte>, bufferSize: int, fuel: nat)
    requires ParseBlock(code).Ok? && ParseBlock(code).closed
    ensures Run(code + q, inputData, bufferSize, fuel) == Run(code, inputData, bufferSize, fuel)
  {
    ParseExtend(code, q);
  }

  /** A stray `]` after a complete program ends it: the run is that of the
      program alone. A source starting with `]` runs nothing at all. */
  lemma RunStrayClose(b: Block, q: seq<byte>, inputData: seq<byte>, bufferSize: int, fuel: nat)
    ensures Run(UnparseSeq(b.children) + [CloseToken] + q, inputData, bufferSize, fuel)
      == Run(UnparseSeq(b.children), inputData, bufferSize, fuel)
    ensures Run([CloseToken] + q, inputData, bufferSize, fuel) == Finished([])
  {
    StrayClose(b, q);
    ParseUnparse(b);
    StrayClose(Block([]), q);
    assert UnparseSeq([]) + [CloseToken] + q == [CloseToken] + q;
  }

  /** A run that finished finishes the same way with more fuel; a run that
      ran out of fuel had printed a prefix of what it prints with more. */
  lemma RunFuelMonotone(code: seq<byte>, inputData: seq<byte>, bufferSize: int, fuel: nat, more: nat)
    requires fuel <= more
    ensures Run(code, inputData, bufferSize, fuel).Finished? ==>
      Run(code, inputData, bufferSize, more) == Run(code, inputData, bufferSize, fuel)
    ensures Run(code, inputData, bufferSize, fuel).FuelExhausted? ==>
      (Run(code, inputData, bufferSize, more).Finished? || Run(code, inputData, bufferSize, more).FuelExhausted?) &&
      Run(code, inputData, bufferSize, fuel).output <= Run(code, inputData, bufferSize, more).output
  {
    var tape := InitialTape(inputData, bufferSize);
    if ParseBlock(code).Ok? && |tape| > 0 {
      EvalBlockFuelMonotone(ParseBlock(code).block.children, State(tape, 0, []), fuel, more);
    }
  }

  /** The program `[.>]` run by the module's `__main__`. */
  const EchoProgram: seq<byte> := [OpenToken, DotToken, ForwardToken, CloseToken]

  /** `[.>]` parses to one loop whose body prints and moves right. */
  lemma ParseEcho()
    ensures ParseBlock(EchoProgram) == Ok(Block([While(Block([Print, Forward]))]), [], false)
  {
    var program := Block([While(Block([Print, Forward]))]);
    assert UnparseSeq([Print, Forward]) == [DotToken, ForwardToken];
    assert UnparseSeq(program.children) == EchoProgram;
    ParseUnparse(program);
  }

  /** `[.>]` prints the preloaded data back when it holds no zero byte and
      leaves at least one zero cell after it. */
  lemma RunEcho(inputData: seq<byte>, bufferSize: int, fuel: nat)
    requires forall i :: 0 <= i < |inputData| ==> inputData[i] != 0
    requires |inputData| < bufferSize && |inputData| <= fuel
    ensures Run(EchoProgram, inputData, bufferSize, fuel) == Finished(inputData)
  {
    ParseEcho();
    var k := |inputData|;
    var body := Block([Print, Forward]);
    var tape := InitialTape(inputData, bufferSize);
    var st := State(tape, 0, []);
    assert |tape| == bufferSize && tape[k] == 0;
    forall i | 0 <= i < k
      ensures tape[i] != 0
    {
      assert tape[i] == tape[..k][i] == inputData[i];
    }
    EchoLoop(st, k, fuel);
    assert tape[0..k] == inputData;
    assert [] + tape[0..k] == inputData;
    var last := State(tape, k, inputData);
    assert EvalWhile(body, st, fuel) == Done(last);
    assert EvalBlock([While(body)], st, fuel) == Done(last) by {
      assert Eval(While(body), st, fuel) == Done(last);
      assert EvalBlock([While(body)][1..], last, fuel) == Done(last);
    }
  }
}
