/** What executing a tree does to the state, as functions. `WhileNode.exec`
    need not terminate, so each loop pass spends one unit of `fuel`. A run
    whose fuel ran out still reports the state it reached, and with it the
    bytes printed so far. */
module Semantics {
  import opened Bytes
  import opened Syntax
  import opened Tape

  /** Where a run stands: finished, or stopped because its fuel ran out. */
  datatype Progress = Done(state: State) | OutOfFuel(state: State)

  /** The effect of a single node's `exec`. */
  function Eval(n: Node, st: State, fuel: nat): (r: Progress)
    requires st.Valid()
    ensures r.state.Valid() && |r.state.tape| == |st.tape|
    ensures st.output <= r.state.output
    decreases fuel, n
  {
    match n
    case Plus => Done(StoreCell(st, st.Current() + 1))
    case Minus => Done(StoreCell(st, st.Current() - 1))
    case Forward => Done(MovePointer(st, st.ptr + 1))
    case Backward => Done(MovePointer(st, st.ptr - 1))
    case Print => Done(st.(output := st.output + [st.Current()]))
    case While(b) => EvalWhile(b, st, fuel)
  }

  /** `CodeBlockNode.exec`: the children, each once, in order. */
  function EvalBlock(cs: seq<Node>, st: State, fuel: nat): (r: Progress)
    requires st.Valid()
    ensures r.state.Valid() && |r.state.tape| == |st.tape|
    ensures st.output <= r.state.output
    decreases fuel, cs
  {
    if cs == [] then Done(st)
    else match Eval(cs[0], st, fuel)
      case OutOfFuel(stopped) => OutOfFuel(stopped)
      case Done(next) => EvalBlock(cs[1..], next, fuel)
  }

  /** `WhileNode.exec`: the body again and again while the current cell is
      nonzero. A zero cell ends the loop whatever the fuel. */
  function EvalWhile(b: Block, st: State, fuel: nat): (r: Progress)
    requires st.Valid()
    ensures r.state.Valid() && |r.state.tape| == |st.tape|
    ensures st.output <= r.state.output
    decreases fuel, b
  {
    if st.Current() == 0 then Done(st)
    else if fuel == 0 then OutOfFuel(st)
    else match EvalBlock(b.children, st, fuel - 1)
      case OutOfFuel(stopped) => OutOfFuel(stopped)
      case Done(next) => EvalWhile(b, next, fuel - 1)
  }

  /** Storing a value whose byte is the current one changes nothing. */
  lemma StoreCellSame(st: State, value: int)
    requires st.Valid() && Wrap8(value) == st.Current()
    ensures StoreCell(st, value) == st
  {
    assert st.tape[st.ptr := st.Current()] == st.tape;
  }

  /** The second of two stores to the same cell is the one that stays. */
  lemma StoreCellTwice(st: State, first: int, second: int)
    requires st.Valid()
    ensures StoreCell(StoreCell(st, first), second) == StoreCell(st, second)
  {
    assert st.tape[st.ptr := Wrap8(first)][st.ptr := Wrap8(second)] == st.tape[st.ptr := Wrap8(second)];
  }

  /** Plus then Minus, and Minus then Plus, give the cell back, at 0 and 255 too. */
  lemma PlusMinusRestores(st: State, fuel: nat)
    requires st.Valid()
    ensures Eval(Plus, st, fuel).Done? && Eval(Minus, Eval(Plus, st, fuel).state, fuel) == Done(st)
    ensures Eval(Minus, st, fuel).Done? && Eval(Plus, Eval(Minus, st, fuel).state, fuel) == Done(st)
  {
    PlusThenMinus(st, fuel);
    MinusThenPlus(st, fuel);
  }

  lemma PlusThenMinus(st: State, fuel: nat)
    requires st.Valid()
    ensures Eval(Plus, st, fuel).Done? && Eval(Minus, Eval(Plus, st, fuel).state, fuel) == Done(st)
  {
    var v: int := st.Current();
    WrapUndo(st.Current());
    var up := StoreCell(st, v + 1);
    assert Eval(Plus, st, fuel) == Done(up);
    StoreCellTwice(st, v + 1, up.Current() - 1);
    StoreCellSame(st, up.Current() - 1);
    assert Eval(Minus, up, fuel) == Done(StoreCell(up, up.Current() - 1));
  }

  lemma MinusThenPlus(st: State, fuel: nat)
    requires st.Valid()
    ensures Eval(Minus, st, fuel).Done? && Eval(Plus, Eval(Minus, st, fuel).state, fuel) == Done(st)
  {
    var v: int := st.Current();
    WrapUndo(st.Current());
    var down := StoreCell(st, v - 1);
    assert Eval(Minus, st, fuel) == Done(down);
    StoreCellTwice(st, v - 1, down.Current() + 1);
    StoreCellSame(st, down.Current() + 1);
    assert Eval(Plus, down, fuel) == Done(StoreCell(down, down.Current() + 1));
  }

  /** Cell arithmetic wraps: Minus on 0 gives 255, Plus on 255 gives 0; only
      the cell under the pointer changes. */
  lemma CellWraps(st: State, fuel: nat)
    requires st.Valid()
    ensures st.Current() == 0 ==> Eval(Minus, st, fuel) == Done(st.(tape := st.tape[st.ptr := 255]))
    ensures st.Current() == 255 ==> Eval(Plus, st, fuel) == Done(st.(tape := st.tape[st.ptr := 0]))
  {
  }

  /** Pointer moves wrap around the tape and leave the tape as it was. */
  lemma PointerWraps(st: State, fuel: nat)
    requires st.Valid()
    ensures Eval(Forward, st, fuel).Done? && Eval(Backward, st, fuel).Done?
    ensures Eval(Forward, st, fuel).state.tape == st.tape == Eval(Backward, st, fuel).state.tape
    ensures st.ptr == 0 ==> Eval(Backward, st, fuel).state.ptr == |st.tape| - 1
    ensures st.ptr == |st.tape| - 1 ==> Eval(Forward, st, fuel).state.ptr == 0
    ensures st.ptr + 1 < |st.tape| ==> Eval(Forward, st, fuel).state.ptr == st.ptr + 1
    ensures 0 < st.ptr ==> Eval(Backward, st, fuel).state.ptr == st.ptr - 1
  {
  }

  /** Print emits the current cell and changes neither tape nor pointer. */
  lemma PrintEmits(st: State, fuel: nat)
    requires st.Valid()
    ensures Eval(Print, st, fuel).Done?
    ensures Eval(Print, st, fuel).state.tape == st.tape
    ensures Eval(Print, st, fuel).state.ptr == st.ptr
    ensures Eval(Print, st, fuel).state.output == st.output + [st.tape[st.ptr]]
  {
  }

  /** A loop entered on a zero cell runs its body zero times. */
  lemma WhileOnZeroSkips(b: Block, st: State, fuel: nat)
    requires st.Valid() && st.Current() == 0
    ensures Eval(While(b), st, fuel) == Done(st)
  {
  }

  /** Whenever a loop finishes, the current cell is 0. */
  lemma {:induction false} WhileEndsOnZero(b: Block, st: State, fuel: nat)
    requires st.Valid() && EvalWhile(b, st, fuel).Done?
    ensures EvalWhile(b, st, fuel).state.Current() == 0
    decreases fuel
  {
    if st.Current() != 0 {
      var next := EvalBlock(b.children, st, fuel - 1).state;
      WhileEndsOnZero(b, next, fuel - 1);
    }
  }

  /** A block of `a + c` runs `a` and then `c` on the state `a` leaves. */
  lemma {:induction false} BlockSequential(a: seq<Node>, c: seq<Node>, st: State, fuel: nat)
    requires st.Valid()
    ensures EvalBlock(a + c, st, fuel) ==
      match EvalBlock(a, st, fuel)
      case OutOfFuel(stopped) => OutOfFuel(stopped)
      case Done(mid) => EvalBlock(c, mid, fuel)
  {
    if a != [] {
      assert (a + c)[0] == a[0] && (a + c)[1..] == a[1..] + c;
      match Eval(a[0], st, fuel)
      case OutOfFuel(_) =>
      case Done(next) => BlockSequential(a[1..], c, next, fuel);
    } else {
      assert a + c == c;
    }
  }

  /** More fuel changes nothing about a run that finished, and a run that
      ran out of fuel printed a prefix of what it prints with more fuel:
      fuel only bounds how far a run gets, it does not steer it. */
  lemma {:induction false} EvalFuelMonotone(n: Node, st: State, fuel: nat, more: nat)
    requires st.Valid() && fuel <= more
    ensures Eval(n, st, fuel).Done? ==> Eval(n, st, more) == Eval(n, st, fuel)
    ensures Eval(n, st, fuel).state.output <= Eval(n, st, more).state.output
    decreases fuel, n
  {
    if n.While? {
      EvalWhileFuelMonotone(n.body, st, fuel, more);
    }
  }

  lemma {:induction false} EvalBlockFuelMonotone(cs: seq<Node>, st: State, fuel: nat, more: nat)
    requires st.Valid() && fuel <= more
    ensures EvalBlock(cs, st, fuel).Done? ==> EvalBlock(cs, st, more) == EvalBlock(cs, st, fuel)
    ensures EvalBlock(cs, st, fuel).state.output <= EvalBlock(cs, st, more).state.output
    decreases fuel, cs
  {
    if cs != [] {
      EvalFuelMonotone(cs[0], st, fuel, more);
      var short := Eval(cs[0], st, fuel);
      var long := Eval(cs[0], st, more);
      if short.Done? {
        EvalBlockFuelMonotone(cs[1..], short.state, fuel, more);
      } else if long.Done? {
        assert long.state.output <= EvalBlock(cs[1..], long.state, more).state.output;
      }
    }
  }

  lemma {:induction false} EvalWhileFuelMonotone(b: Block, st: State, fuel: nat, more: nat)
    requires st.Valid() && fuel <= more
    ensures EvalWhile(b, st, fuel).Done? ==> EvalWhile(b, st, more) == EvalWhile(b, st, fuel)
    ensures EvalWhile(b, st, fuel).state.output <= EvalWhile(b, st, more).state.output
    decreases fuel, b
  {
    if st.Current() != 0 && fuel != 0 {
      EvalBlockFuelMonotone(b.children, st, fuel - 1, more - 1);
      var short := EvalBlock(b.children, st, fuel - 1);
      var long := EvalBlock(b.children, st, more - 1);
      if short.Done? {
        EvalWhileFuelMonotone(b, short.state, fuel - 1, more - 1);
      } else if long.Done? {
        assert long.state.output <= EvalWhile(b, long.state, more - 1).state.output;
      }
    }
  }

  /** `[.]` on a nonzero cell never ends: each pass prints the cell again,
      so with `fuel` passes allowed it has printed `fuel` copies of it. */
  lemma {:induction false} PrintLoopKeepsPrinting(st: State, fuel: nat)
    requires st.Valid() && st.Current() != 0
    ensures EvalWhile(Block([Print]), st, fuel) ==
      OutOfFuel(st.(output := st.output + seq(fuel, _ => st.Current())))
    decreases fuel
  {
    if fuel == 0 {
      assert st.output + seq(0, _ => st.Current()) == st.output;
    } else {
      var next := st.(output := st.output + [st.Current()]);
      assert EvalBlock([Print], st, fuel - 1) == Done(next) by {
        assert EvalBlock([Print][1..], next, fuel - 1) == Done(next);
      }
      PrintLoopKeepsPrinting(next, fuel - 1);
      assert next.output + seq(fuel - 1, _ => st.Current()) == st.output + seq(fuel, _ => st.Current());
    }
  }

  /** The loop `[.>]` prints the cells from the pointer up to the first zero
      cell, and stops with the pointer on that zero cell. */
  lemma {:induction false} EchoLoop(st: State, k: nat, fuel: nat)
    requires st.Valid() && st.ptr + k < |st.tape|
    requires forall i :: st.ptr <= i < st.ptr + k ==> st.tape[i] != 0
    requires st.tape[st.ptr + k] == 0
    requires k <= fuel
    ensures EvalWhile(Block([Print, Forward]), st, fuel) ==
      Done(State(st.tape, st.ptr + k, st.output + st.tape[st.ptr..st.ptr + k]))
    decreases k
  {
    if k > 0 {
      var printed := st.(output := st.output + [st.Current()]);
      var next := printed.(ptr := st.ptr + 1);
      assert EvalBlock([Print, Forward], st, fuel - 1) == Done(next) by {
        assert Eval(Print, st, fuel - 1) == Done(printed);
        assert Eval(Forward, printed, fuel - 1) == Done(next);
        assert EvalBlock([Print, Forward][1..][1..], next, fuel - 1) == Done(next);
      }
      assert st.Current() != 0;
      assert EvalWhile(Block([Print, Forward]), st, fuel) == EvalWhile(Block([Print, Forward]), next, fuel - 1);
      EchoLoop(next, k - 1, fuel - 1);
      assert st.tape[st.ptr..st.ptr + k] == [st.Current()] + next.tape[next.ptr..next.ptr + (k - 1)];
      assert st.output + st.tape[st.ptr..st.ptr + k] == next.output + next.tape[next.ptr..next.ptr + (k - 1)];
    } else {
      assert st.output + st.tape[st.ptr..st.ptr] == st.output;
    }
  }
}
