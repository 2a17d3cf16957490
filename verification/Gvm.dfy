/**
 The interpreter itself: an array-backed stack, a growing memory, and the loop
 over the bytes of the code, proved equal to the fold of GvmSpec.
 */
module Gvm {
  import opened Prelude
  import opened Spec = GvmSpec

  class Stack {
    const data: array<int>
    var size: nat

    ghost predicate Valid()
      reads this
    {
      data.Length == STACK_LIMIT && size <= STACK_LIMIT
    }

    ghost function Contents(): seq<int>
      requires Valid()
      reads this, data
    {
      data[..size]
    }

    constructor ()
      ensures Valid() && fresh(data) && Contents() == []
    {
      data := new int[STACK_LIMIT];
      size := 0;
    }

    /** A full stack refuses. */
    method Push(val: int) returns (ok: bool)
      requires Valid()
      modifies `size, data
      ensures Valid() && Contents() == PushOn(old(Contents()), val)
      ensures ok == (|old(Contents())| < STACK_LIMIT)
    {
      if size >= STACK_LIMIT { return false; }
      data[size] := val;
      size := size + 1;
      return true;
    }

    /** An empty stack gives None, the source's nil. */
    method Pop() returns (val: Option<int>)
      requires Valid()
      modifies `size
      ensures Valid()
      ensures val == if old(Contents()) == [] then None else Some(old(Contents())[|old(Contents())| - 1])
      ensures Contents() == if old(Contents()) == [] then [] else old(Contents())[..|old(Contents())| - 1]
    {
      if size == 0 { return None; }
      size := size - 1;
      return Some(data[size]);
    }
  }

  class Memory {
    var data: seq<Byte>

    constructor ()
      ensures data == []
    {
      data := [];
    }

    /** Grow with zeros to offset + size, computed in 64 bits. */
    method Ensure(offset: int, size: int)
      modifies this
      ensures var needed := SignedView(offset + size);
              data == if needed > |old(data)| then old(data) + Zeros(needed - |old(data)|) else old(data)
    {
      var needed := SignedView(offset + size);
      if needed > |data| {
        data := data + Zeros(needed - |data|);
      }
    }

    /** None is a panic: the slice is out of range. */
    method Get(offset: int, size: int) returns (r: Option<seq<Byte>>)
      requires -TWO_63 <= offset < TWO_63 && -TWO_63 <= size < TWO_63
      modifies this
      ensures r.Some? <==> 0 <= offset && 0 <= size && offset + size < TWO_63
      ensures r.Some? ==> |r.value| == size && offset + size <= |data| && r.value == data[offset..offset + size]
      ensures old(data) <= data && forall k :: |old(data)| <= k < |data| ==> data[k] == 0
    {
      Ensure(offset, size);
      var high := SignedView(offset + size);
      if offset < 0 || high < offset { return None; }
      return Some(data[offset..high]);
    }
  }

  /** What Execute returns; an ending other than a normal one reports no gas at all. */
  datatype Result =
    | Result(returnData: seq<Byte>, gasUsed: int, gasRemaining: nat, reverted: bool, error: Option<Error>)
    | Panic

  datatype Error = OutOfGasError | PushOutOfBoundsError | RevertedError

  function Report(gas: nat, r: Ending): Result {
    match r
    case Stopped(left) => Result([], gas - left, left, false, None)
    case Returned(data, left) => Result(data, gas - left, left, false, None)
    case Reverted(data, left) => Result(data, gas - left, left, true, Some(RevertedError))
    case OutOfGas => Result([], 0, 0, true, Some(OutOfGasError))
    case PushOutOfBounds => Result([], 0, 0, true, Some(PushOutOfBoundsError))
    case Panicked => Panic
  }

  /** A quotient with a remainder that is never negative. */
  lemma DivisionIs(a: int, b: int)
    ensures b > 0 ==> 0 <= a - a / b * b < b
    ensures b < 0 ==> 0 <= a - a / b * b < -b
  {
    assert b != 0 ==> a == a / b * b + a % b;
  }

  class GVM {
    const schedule: GasSchedule

    constructor (schedule: GasSchedule)
      ensures this.schedule == schedule
    {
      this.schedule := schedule;
    }

    /** Pop two operands and push the result; false is a panic. */
    method Arithmetic(stack: Stack, op: Operator) returns (ok: bool)
      requires stack.Valid()
      modifies stack`size, stack.data
      ensures stack.Valid() && ok == (|old(stack.Contents())| >= 2)
      ensures ok ==> var was := old(stack.Contents());
        stack.Contents() == was[..|was| - 2] + [Compute(op, was[|was| - 1], was[|was| - 2])]
      ensures ok ==> var (was, now) := (old(stack.Contents()), stack.Contents());
        var (a, b, r) := (was[|was| - 1], was[|was| - 2], now[|now| - 1]);
        && (op.Add? ==> r == a + b) && (op.Sub? ==> r == a - b) && (op.Mul? ==> r == a * b)
        && (op.Div? && b == 0 ==> r == 0) && (op.Div? && b > 0 ==> 0 <= a - r * b < b) && (op.Div? && b < 0 ==> 0 <= a - r * b < -b)
    {
      var a := stack.Pop();
      var b := stack.Pop();
      if a.None? || b.None? { return false; }
      DivisionIs(a.value, b.value);
      ok := stack.Push(Compute(op, a.value, b.value));
    }

    /** Pop an offset and a size and slice the memory; None is a panic. */
    method Output(stack: Stack, memory: Memory) returns (r: Option<seq<Byte>>)
      requires stack.Valid() && memory.data == []
      modifies stack`size, memory
      ensures stack.Valid() && r == Slice(old(stack.Contents()))
    {
      var offset := stack.Pop();
      var size := stack.Pop();
      if offset.None? || size.None? { return None; }
      r := memory.Get(SignedView(offset.value), SignedView(size.value));
      if r.Some? { assert r.value == Zeros(|r.value|); }
    }

    /** One case of the switch: None goes on with the next byte, Some ends the run. */
    method Dispatch(ctx: Context, op: Byte, stack: Stack, memory: Memory, gas0: nat) returns (r: Option<Ending>, gas: nat)
      requires stack.Valid() && memory.data == [] && !IsPush(op)
      modifies stack`size, stack.data, memory
      ensures stack.Valid()
      ensures var step := Perform(schedule, ctx, Simple(op), old(stack.Contents()), gas0);
              if step.Halt? then r == Some(step.ending)
              else r.None? && stack.Contents() == step.stack && gas == step.gas && memory.data == []
    {
      var cost := Cost(schedule, Simple(op));
      if gas0 < cost { return Some(OutOfGas), gas0; }
      gas := gas0 - cost;
      r := None;
      match Simple(op) {
        case Stop => r := Some(Stopped(gas));
        case Binary(operator) =>
          var ok := Arithmetic(stack, operator);
          if !ok { r := Some(Panicked); }
        case ChainID => var _ := stack.Push(ctx.chainID);
        case Caller => var _ := stack.Push(ValueOf(ctx.caller));
        case CallValue => var _ := stack.Push(ctx.value);
        case Pop => var _ := stack.Pop();
        case JumpDest =>
        case Return =>
          var data := Output(stack, memory);
          r := Some(if data.Some? then Returned(data.value, gas) else Panicked);
        case Revert =>
          var data := Output(stack, memory);
          r := Some(if data.Some? then Reverted(data.value, gas) else Panicked);
        case GhostBrain => var _ := stack.Push(1);
        case GhostBridge => var _ := stack.Push(1);
        case Skip =>
      }
    }

    /** The whole interpreter: it ends, with what the decoded program says. */
    method Execute(ctx: Context) returns (r: Result)
      ensures r == Report(ctx.gas, Run(schedule, ctx, Decode(ctx.code), [], ctx.gas))
    {
      hide Run, Decode, Effect, First;
      var stack := new Stack();
      var memory := new Memory();
      var gas: nat, pc, code := ctx.gas, 0, ctx.code;
      assert code[0..] == code;
      while pc < |code|
        invariant 0 <= pc <= |code| && fresh(stack) && fresh(stack.data) && fresh(memory)
        invariant stack.Valid() && memory.data == []
        invariant Run(schedule, ctx, Decode(code[pc..]), stack.Contents(), gas)
               == Run(schedule, ctx, Decode(code), [], ctx.gas)
        decreases |code| - pc
      {
        var op := code[pc];
        if IsPush(op) {
          var n := op - 0x60 + 1;
          RunPush(schedule, ctx, code, pc, stack.Contents(), gas);
          if gas < schedule.veryLow { return Report(ctx.gas, OutOfGas); }
          gas := gas - schedule.veryLow;
          if pc + n >= |code| { return Report(ctx.gas, PushOutOfBounds); }
          var _ := stack.Push(ValueOf(code[pc + 1..pc + 1 + n]));
          pc := pc + n;
        } else {
          RunSimple(schedule, ctx, code, pc, stack.Contents(), gas);
          var ending;
          ending, gas := Dispatch(ctx, op, stack, memory, gas);
          if ending.Some? { return Report(ctx.gas, ending.value); }
        }
        pc := pc + 1;
      }
      RunNothing(schedule, ctx, code, pc, stack.Contents(), gas);
      r := Report(ctx.gas, Stopped(gas));
    }
  }

  /** From pc on, a run takes the instruction there and goes on after it. */
  lemma RunSimple(s: GasSchedule, ctx: Context, code: seq<Byte>, pc: nat, stack: seq<int>, gas: nat)
    requires pc < |code| && !IsPush(code[pc])
    ensures Run(s, ctx, Decode(code[pc..]), stack, gas)
         == Resume(s, ctx, Perform(s, ctx, Simple(code[pc]), stack, gas), Decode(code[pc + 1..]))
  {
  }

  lemma RunPush(s: GasSchedule, ctx: Context, code: seq<Byte>, pc: nat, stack: seq<int>, gas: nat)
    requires pc < |code| && IsPush(code[pc])
    ensures var n := code[pc] - 0x60 + 1;
            Run(s, ctx, Decode(code[pc..]), stack, gas) ==
              if gas < s.veryLow then OutOfGas
              else if pc + n >= |code| then PushOutOfBounds
              else Run(s, ctx, Decode(code[pc + n + 1..]), PushOn(stack, ValueOf(code[pc + 1..pc + 1 + n])), gas - s.veryLow)
  {
    hide Run, Decode;
    var n := code[pc] - 0x60 + 1;
    var rest := code[pc..];
    DecodeFirst(rest);
    if pc + n < |code| {
      assert rest[1..n + 1] == code[pc + 1..pc + 1 + n] && rest[n + 1..] == code[pc + n + 1..];
      RunCons(s, ctx, First(rest), Decode(rest[n + 1..]), stack, gas);
    } else {
      RunCons(s, ctx, TruncatedPush, [], stack, gas);
      assert Decode(rest) == [TruncatedPush] + [];
    }
  }

  lemma RunNothing(s: GasSchedule, ctx: Context, code: seq<Byte>, pc: nat, stack: seq<int>, gas: nat)
    requires pc == |code|
    ensures Run(s, ctx, Decode(code[pc..]), stack, gas) == Stopped(gas)
  {
  }

  // ----- What callers may rely on -----

  /**
   Gas of a whole execution. Out of gas is reported exactly when the context
   offers less than the static price, and otherwise, unless a push runs past the
   end, the gas used is that price and used and remaining add up.
   */
  lemma ExecutionGas(s: GasSchedule, ctx: Context)
    ensures var r := Report(ctx.gas, Run(s, ctx, Decode(ctx.code), [], ctx.gas));
            var price := StaticCost(s, Decode(ctx.code));
            r.Result? ==>
              && (r.error == Some(OutOfGasError) <==> ctx.gas < price)
              && (r.error == None || r.error == Some(RevertedError) ==>
                r.gasUsed == price && r.gasUsed + r.gasRemaining == ctx.gas)
  {
    GasIsStatic(s, ctx, Decode(ctx.code), [], ctx.gas);
  }

  /** An execution that runs short of operands panics exactly when the gas reaches that far; other code at most in its final slice. */
  lemma ExecutionPanics(s: GasSchedule, ctx: Context)
    ensures var prog := Decode(ctx.code);
            var r := Report(ctx.gas, Run(s, ctx, prog, [], ctx.gas));
            if RunsShort(prog, 0) then r.Panic? <==> ctx.gas >= ShortCost(s, prog, 0)
            else r.Panic? ==> EndsInSlice(prog) && ctx.gas >= StaticCost(s, prog)
  {
    PanicIsStatic(s, ctx, Decode(ctx.code), [], ctx.gas);
  }

  /** A richer caller gets the same execution, and the difference back. */
  lemma ExecutionExtraGas(s: GasSchedule, ctx: Context, extra: nat)
    requires ctx.gas + extra < TWO_64
    requires ctx.gas >= StaticCost(s, Decode(ctx.code))
    ensures var r := Report(ctx.gas, Run(s, ctx, Decode(ctx.code), [], ctx.gas));
            var rich := ctx.(gas := ctx.gas + extra);
            var r' := Report(rich.gas, Run(s, rich, Decode(rich.code), [], rich.gas));
            r' == if r.Panic? || r.error == Some(PushOutOfBoundsError) then r
                  else r.(gasRemaining := r.gasRemaining + extra)
  {
    hide Run, StaticCost, Decode;
    var rich := ctx.(gas := ctx.gas + extra);
    var prog := Decode(ctx.code);
    GasIsStatic(s, ctx, prog, [], ctx.gas);
    ContextGasUnread(s, ctx, rich, prog, [], rich.gas);
    ExtraGasRemains(s, ctx, prog, [], ctx.gas, extra);
  }

  /** The program cannot read the gas of its context. */
  lemma {:induction false} ContextGasUnread(s: GasSchedule, c: Context, d: Context, prog: seq<Instr>, stack: seq<int>, gas: nat)
    requires d == c.(gas := d.gas)
    ensures Run(s, c, prog, stack, gas) == Run(s, d, prog, stack, gas)
    decreases |prog|
  {
    if prog != [] {
      var step := Perform(s, c, prog[0], stack, gas);
      if step.Next? { ContextGasUnread(s, c, d, prog[1..], step.stack, step.gas); }
    }
  }
}
