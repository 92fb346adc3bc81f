/** The execution context of bf.py: `Context`, a byte tape and a pointer. */
module Tape {
  import opened Bytes

  /** The abstract state of a run: the tape, the pointer, and the bytes
      printed so far (`print(end=chr(v))` writes one byte per call). */
  datatype State = State(tape: seq<byte>, ptr: nat, output: seq<byte>) {
    /** The pointer indexes the tape. */
    predicate Valid() {
      ptr < |tape|
    }

    /** `current_value`: the byte under the pointer. */
    function Current(): byte
      requires Valid()
    {
      tape[ptr]
    }
  }

  /** `bytearray([0]) * k`, which is empty when `k` is not positive. */
  function Zeros(k: int): (z: seq<byte>)
    ensures |z| == if k > 0 then k else 0
    ensures forall i :: 0 <= i < |z| ==> z[i] == 0
  {
    if k <= 0 then [] else Zeros(k - 1) + [0]
  }

  /** The tape the constructor builds: the preloaded data, then zeros up to
      `bufferSize` cells. Data longer than `bufferSize` is kept whole. */
  function InitialTape(data: seq<byte>, bufferSize: int): (tape: seq<byte>)
    ensures |tape| == if bufferSize > |data| then bufferSize else |data|
    ensures tape[..|data|] == data
    ensures forall i :: |data| <= i < |tape| ==> tape[i] == 0
  {
    data + Zeros(bufferSize - |data|)
  }

  /** The `current_value` setter: stores `value & 255` in the cell under the
      pointer and nothing else. */
  function StoreCell(st: State, value: int): (r: State)
    requires st.Valid()
    ensures r.Valid() && r.ptr == st.ptr && r.output == st.output
    ensures |r.tape| == |st.tape| && r.Current() == Wrap8(value)
    ensures forall i :: 0 <= i < |st.tape| && i != st.ptr ==> r.tape[i] == st.tape[i]
  {
    st.(tape := st.tape[st.ptr := Wrap8(value)])
  }

  /** The `pointer` setter: `value % len(buffer)`, which Python computes with
      a non-negative result for a positive length; the tape is untouched. */
  function MovePointer(st: State, value: int): (r: State)
    requires |st.tape| > 0
    ensures r.Valid() && r.tape == st.tape && r.output == st.output
    ensures 0 <= value < |st.tape| ==> r.ptr == value
    ensures value == -1 ==> r.ptr == |st.tape| - 1
    ensures value == |st.tape| ==> r.ptr == 0
  {
    st.(ptr := value % |st.tape|)
  }

  /** `Context`: the tape as a fixed-size array, updated in place. The bytes
      printed are kept in `output`, standing for the process's stdout. */
  class Context {
    var buffer: array<byte>
    var ptr: nat
    var output: seq<byte>

    ghost predicate Valid()
      reads this
    {
      ptr < buffer.Length || (buffer.Length == 0 && ptr == 0)
    }

    ghost function View(): State
      reads this, buffer
    {
      State(buffer[..], ptr, output)
    }

    constructor (bufferSize: int, data: seq<byte>)
      ensures Valid() && fresh(buffer)
      ensures View() == State(InitialTape(data, bufferSize), 0, [])
    {
      var tape := InitialTape(data, bufferSize);
      buffer := new byte[|tape|](i requires 0 <= i < |tape| => tape[i]);
      ptr := 0;
      output := [];
    }

    /** The `current_value` getter. An empty tape makes it raise IndexError. */
    function CurrentValue(): (v: byte)
      reads this, buffer
      requires Valid() && buffer.Length > 0
      ensures v == View().Current()
    {
      buffer[ptr]
    }

    method SetCurrentValue(value: int)
      requires Valid() && buffer.Length > 0
      modifies buffer
      ensures Valid()
      ensures View() == StoreCell(old(View()), value)
    {
      buffer[ptr] := Wrap8(value);
    }

    /** The `pointer` setter. An empty tape makes it raise ZeroDivisionError. */
    method SetPointer(value: int)
      requires Valid() && buffer.Length > 0
      modifies this`ptr
      ensures Valid()
      ensures View() == MovePointer(old(View()), value)
    {
      ptr := value % buffer.Length;
    }
  }
}
