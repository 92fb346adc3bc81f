/** Byte values and the small helpers shared by the interpreter's modules. */
module Bytes {

  /** A byte, as held by Python's `bytes` and `bytearray`. */
  type byte = x: int | 0 <= x < 256

  /** Reduces any integer to a byte. Python's `value & 255` on an integer of
      any sign is the non-negative remainder modulo 256, which is Dafny's `%`. */
  function Wrap8(value: int): (b: byte)
    ensures 0 <= value < 256 ==> b == value
    ensures (b - value) % 256 == 0
  {
    value % 256
  }

  /** Adding one and subtracting one, in either order, gives a byte back. */
  lemma WrapUndo(v: byte)
    ensures Wrap8(Wrap8(v + 1) - 1) == v
    ensures Wrap8(Wrap8(v - 1) + 1) == v
  {
    if v == 255 {
      assert Wrap8(v + 1) == 0;
    } else {
      assert Wrap8(v + 1) == v + 1;
    }
    if v == 0 {
      assert Wrap8(v - 1) == 255;
    } else {
      assert Wrap8(v - 1) == v - 1;
    }
  }

  /** The sequence read back to front, as `reversed(...)` yields it. */
  function Reversed<T>(s: seq<T>): (r: seq<T>)
    ensures |r| == |s|
    ensures forall i :: 0 <= i < |s| ==> r[i] == s[|s| - 1 - i]
  {
    if s == [] then [] else [s[|s| - 1]] + Reversed(s[..|s| - 1])
  }

  lemma ReversedInvolutive<T>(s: seq<T>)
    ensures Reversed(Reversed(s)) == s
  {
  }
}
