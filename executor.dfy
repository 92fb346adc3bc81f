/** The `exec` methods of bf.py's nodes, run against a `Context` in place.
    Each takes the fuel its loops may spend and answers false when it ran
    out, leaving the context as far as it got; each is proved to do exactly
    what `Semantics` says. */
module Executor {
  import opened Bytes
  import opened Syntax
  import opened Tape
  import opened Semantics

  /** `node.exec(context)` for any node. */
  method ExecNode(n: Node, ctx: Context, fuel: nat) returns (ok: bool)
    requires ctx.Valid() && ctx.buffer.Length > 0
    modifies ctx, ctx.buffer
    ensures ctx.Valid() && ctx.buffer == old(ctx.buffer)
    ensures Eval(n, old(ctx.View()), fuel) == if ok then Done(ctx.View()) else OutOfFuel(ctx.View())
    decreases fuel, n
  {
    match n
    case Plus =>
      ctx.SetCurrentValue(ctx.CurrentValue() + 1);
      ok := true;
    case Minus =>
      ctx.SetCurrentValue(ctx.CurrentValue() - 1);
      ok := true;
    case Forward =>
      ctx.SetPointer(ctx.ptr + 1);
      ok := true;
    case Backward =>
      ctx.SetPointer(ctx.ptr - 1);
      ok := true;
    case Print =>
      ctx.output := ctx.output + [ctx.CurrentValue()];
      ok := true;
    case While(b) =>
      ok := ExecWhile(b, ctx, fuel);
  }

  /** `CodeBlockNode.exec`: a `for` loop over the children. */
  method ExecBlock(b: Block, ctx: Context, fuel: nat) returns (ok: bool)
    requires ctx.Valid() && ctx.buffer.Length > 0
    modifies ctx, ctx.buffer
    ensures ctx.Valid() && ctx.buffer == old(ctx.buffer)
    ensures EvalBlock(b.children, old(ctx.View()), fuel) == if ok then Done(ctx.View()) else OutOfFuel(ctx.View())
    decreases fuel, b
  {
    for i := 0 to |b.children|
      invariant ctx.Valid() && ctx.buffer == old(ctx.buffer)
      invariant EvalBlock(b.children, old(ctx.View()), fuel) == EvalBlock(b.children[i..], ctx.View(), fuel)
    {
      ok := ExecNode(b.children[i], ctx, fuel);
      if !ok {
        return;
      }
    }
    ok := true;
  }

  /** `WhileNode.exec`: runs the body while the current cell is nonzero,
      one unit of fuel per pass. */
  method ExecWhile(b: Block, ctx: Context, fuel: nat) returns (ok: bool)
    requires ctx.Valid() && ctx.buffer.Length > 0
    modifies ctx, ctx.buffer
    ensures ctx.Valid() && ctx.buffer == old(ctx.buffer)
    ensures EvalWhile(b, old(ctx.View()), fuel) == if ok then Done(ctx.View()) else OutOfFuel(ctx.View())
    decreases fuel, b
  {
    var left: nat := fuel;
    while ctx.CurrentValue() != 0
      invariant ctx.Valid() && ctx.buffer == old(ctx.buffer)
      invariant left <= fuel
      invariant EvalWhile(b, old(ctx.View()), fuel) == EvalWhile(b, ctx.View(), left)
      decreases left
    {
      if left == 0 {
        return false;
      }
      left := left - 1;
      ok := ExecBlock(b, ctx, left);
      if !ok {
        return;
      }
    }
    ok := true;
  }
}
