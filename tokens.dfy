/** The token source of bf.py: `SourceCodeStack`. */
module Tokens {
  import opened Bytes

  /** Holds the source bytes reversed, so that popping from the end of the
      buffer yields the tokens in their original order. */
  class SourceCodeStack {
    var code: seq<byte>

    /** The tokens not yet read, in source order. */
    ghost function Remaining(): seq<byte>
      reads this
    {
      Reversed(code)
    }

    constructor (source: seq<byte>)
      ensures Remaining() == source
    {
      code := Reversed(source);
      ReversedInvolutive(source);
    }

    /** Pops one byte. The source pops from an empty `bytearray` only by
        raising IndexError; its one caller asks `HasTokens` first. */
    method ReadNextToken() returns (token: byte)
      requires Remaining() != []
      modifies this
      ensures token == old(Remaining())[0]
      ensures Remaining() == old(Remaining())[1..]
    {
      token := code[|code| - 1];
      code := code[..|code| - 1];
    }

    /** `__bool__`: true exactly while unread bytes remain. */
    method HasTokens() returns (more: bool)
      ensures more <==> Remaining() != []
    {
      more := code != [];
    }
  }
}
