/**
 The meaning of Ghost Virtual Machine bytecode: a list of decoded instructions
 folded over a stack of unbounded integers and a gas counter. Opcodes the
 interpreter does not implement are skipped free of charge, and a push on a full
 stack is dropped. A Go panic (an empty stack where a number is needed, or a
 slice out of range) is an ending of its own.
 */
module GvmSpec {
  import opened Prelude

  const STACK_LIMIT: nat := 1024

  datatype GasSchedule = GasSchedule(
    base: Uint64, veryLow: Uint64, low: Uint64, jumpDest: Uint64, ghostBrain: Uint64, ghostBridge: Uint64)

  datatype Context = Context(code: seq<Byte>, caller: Address, value: int, gas: Uint64, chainID: Uint64)

  // ----- Instructions -----

  datatype Operator = Add | Sub | Mul | Div

  datatype Instr =
    | Stop
    | Binary(op: Operator)
    | ChainID
    | Caller
    | CallValue
    | Pop
    | JumpDest
    | Return
    | Revert
    | GhostBrain
    | GhostBridge
    | Push(value: nat)
    | TruncatedPush
    | Skip

  predicate IsPush(op: Byte) { 0x60 <= op <= 0x7f }

  /** The instruction of a one-byte opcode. */
  function Simple(op: Byte): Instr {
    match op
    case 0x00 => Stop
    case 0x01 => Binary(Add)
    case 0x02 => Binary(Mul)
    case 0x03 => Binary(Sub)
    case 0x04 => Binary(Div)
    case 0x33 => Caller
    case 0x34 => CallValue
    case 0x46 => ChainID
    case 0x50 => Pop
    case 0x5b => JumpDest
    case 0xe0 => GhostBrain
    case 0xe2 => GhostBridge
    case 0xf3 => Return
    case 0xfd => Revert
    case _ => Skip
  }

  /** Bytes as a number, most significant first. */
  function ValueOf(bytes: seq<Byte>): nat
    decreases |bytes|
  {
    if bytes == [] then 0 else 256 * ValueOf(bytes[..|bytes| - 1]) + bytes[|bytes| - 1]
  }

  /** The bytes an instruction takes, itself included; what is left of the code may be shorter. */
  function Width(op: Byte): (w: nat)
    ensures w > 0
  {
    if IsPush(op) then op - 0x60 + 2 else 1
  }

  function Decode(code: seq<Byte>): seq<Instr>
    decreases |code|
  {
    if code == [] then []
    else
      var w := Width(code[0]);
      if w > |code| then [TruncatedPush]
      else [if IsPush(code[0]) then Push(ValueOf(code[1..w])) else Simple(code[0])] + Decode(code[w..])
  }

  // ----- Execution -----

  function Cost(s: GasSchedule, i: Instr): nat {
    match i
    case Stop => 0
    case Skip => 0
    case Binary(op) => if op.Add? || op.Sub? then s.veryLow else s.low
    case ChainID => s.base
    case Caller => s.base
    case CallValue => s.base
    case Pop => s.base
    case JumpDest => s.jumpDest
    case Return => s.veryLow
    case Revert => s.veryLow
    case GhostBrain => s.ghostBrain
    case GhostBridge => s.ghostBridge
    case Push(_) => s.veryLow
    case TruncatedPush => s.veryLow
  }

  datatype Ending =
    | Stopped(gas: nat)
    | Returned(data: seq<Byte>, gas: nat)
    | Reverted(data: seq<Byte>, gas: nat)
    | OutOfGas
    | PushOutOfBounds
    | Panicked

  datatype Step = Next(stack: seq<int>, gas: nat) | Halt(ending: Ending)

  function PushOn(stack: seq<int>, v: int): seq<int> {
    if |stack| < STACK_LIMIT then stack + [v] else stack
  }

  function Compute(op: Operator, a: int, b: int): int {
    match op
    case Add => a + b
    case Sub => a - b
    case Mul => a * b
    case Div => if b == 0 then 0 else a / b
  }

  function Zeros(n: nat): seq<Byte> { seq(n, _ => 0) }

  /** The slice a return or revert takes of the untouched memory; None is a panic. */
  function Slice(stack: seq<int>): Option<seq<Byte>> {
    if |stack| < 2 then None
    else
      var (offset, size) := (SignedView(stack[|stack| - 1]), SignedView(stack[|stack| - 2]));
      if 0 <= offset && 0 <= size && offset + size < TWO_63 then Some(Zeros(size)) else None
  }

  /** What an instruction does once it is paid for. */
  function Effect(ctx: Context, i: Instr, stack: seq<int>, gas: nat): Step {
    match i
    case Stop => Halt(Stopped(gas))
    case Skip => Next(stack, gas)
    case JumpDest => Next(stack, gas)
    case Binary(op) =>
      if |stack| < 2 then Halt(Panicked)
      else Next(stack[..|stack| - 2] + [Compute(op, stack[|stack| - 1], stack[|stack| - 2])], gas)
    case ChainID => Next(PushOn(stack, ctx.chainID), gas)
    case Caller => Next(PushOn(stack, ValueOf(ctx.caller)), gas)
    case CallValue => Next(PushOn(stack, ctx.value), gas)
    case Pop => Next(if stack == [] then [] else stack[..|stack| - 1], gas)
    case Return => Halt(if Slice(stack).Some? then Returned(Slice(stack).value, gas) else Panicked)
    case Revert => Halt(if Slice(stack).Some? then Reverted(Slice(stack).value, gas) else Panicked)
    case GhostBrain => Next(PushOn(stack, 1), gas)
    case GhostBridge => Next(PushOn(stack, 1), gas)
    case Push(v) => Next(PushOn(stack, v), gas)
    case TruncatedPush => Halt(PushOutOfBounds)
  }

  function Perform(s: GasSchedule, ctx: Context, i: Instr, stack: seq<int>, gas: nat): Step {
    if gas < Cost(s, i) then Halt(OutOfGas) else Effect(ctx, i, stack, gas - Cost(s, i))
  }

  function Run(s: GasSchedule, ctx: Context, prog: seq<Instr>, stack: seq<int>, gas: nat): Ending
    decreases |prog|
  {
    if prog == [] then Stopped(gas)
    else
      var step := Perform(s, ctx, prog[0], stack, gas);
      if step.Halt? then step.ending else Run(s, ctx, prog[1..], step.stack, step.gas)
  }

  /** Go on from where a step left the machine. */
  function Resume(s: GasSchedule, ctx: Context, step: Step, rest: seq<Instr>): Ending {
    if step.Halt? then step.ending else Run(s, ctx, rest, step.stack, step.gas)
  }

  lemma RunCons(s: GasSchedule, ctx: Context, i: Instr, rest: seq<Instr>, stack: seq<int>, gas: nat)
    ensures Run(s, ctx, [i] + rest, stack, gas) == Resume(s, ctx, Perform(s, ctx, i, stack, gas), rest)
  {
  }

  // ----- Composition -----

  predicate Halts(i: Instr) { i.Stop? || i.Return? || i.Revert? || i.TruncatedPush? }

  /** Where a list of instructions leaves the machine if nothing stops it. */
  function Through(s: GasSchedule, ctx: Context, prog: seq<Instr>, stack: seq<int>, gas: nat): Step
    decreases |prog|
  {
    if prog == [] then Next(stack, gas)
    else
      var step := Perform(s, ctx, prog[0], stack, gas);
      if step.Halt? then step else Through(s, ctx, prog[1..], step.stack, step.gas)
  }

  lemma {:induction false} RunConcat(s: GasSchedule, ctx: Context, p: seq<Instr>, q: seq<Instr>, stack: seq<int>, gas: nat)
    ensures var mid := Through(s, ctx, p, stack, gas);
            Run(s, ctx, p + q, stack, gas) == Resume(s, ctx, mid, q)
    decreases |p|
  {
    if p == [] {
      assert p + q == q;
    } else {
      assert (p + q)[1..] == p[1..] + q;
      var step := Perform(s, ctx, p[0], stack, gas);
      if step.Next? { RunConcat(s, ctx, p[1..], q, step.stack, step.gas); }
    }
  }

  function First(code: seq<Byte>): Instr
    requires code != []
  {
    var w := Width(code[0]);
    if w > |code| then TruncatedPush
    else if IsPush(code[0]) then Push(ValueOf(code[1..w]))
    else Simple(code[0])
  }

  lemma DecodeFirst(code: seq<Byte>)
    requires code != []
    ensures var w := Width(code[0]); Decode(code) == if w > |code| then [First(code)] else [First(code)] + Decode(code[w..])
    ensures First(code).TruncatedPush? <==> Width(code[0]) > |code|
  {
  }

  lemma FirstConcat(p: seq<Byte>, q: seq<Byte>)
    requires p != [] && Width(p[0]) <= |p|
    ensures First(p + q) == First(p)
  {
    var w := Width(p[0]);
    assert (p + q)[1..w] == p[1..w];
  }

  lemma RestConcat(p: seq<Byte>, q: seq<Byte>, w: nat)
    requires 0 < w <= |p|
    ensures (p + q)[0] == p[0] && (p + q)[w..] == p[w..] + q
  {
  }

  /** The code does not end inside a push. */
  predicate Whole(code: seq<Byte>)
    decreases |code|
  {
    code == [] || (Width(code[0]) <= |code| && Whole(code[Width(code[0])..]))
  }

  /** The first instruction of whole code, and the rest of the code, with and without more code behind it. */
  lemma WholeFirst(p: seq<Byte>, q: seq<Byte>)
    requires p != [] && Whole(p)
    ensures var w := Width(p[0]);
            && w <= |p| && Whole(p[w..])
            && Decode(p) == [First(p)] + Decode(p[w..])
            && Decode(p + q) == [First(p)] + Decode(p[w..] + q)
  {
    assert Width(p[0]) <= |p| && Whole(p[Width(p[0])..]);
    hide Decode, First, Width, Whole;
    RestConcat(p, q, Width(p[0]));
    FirstConcat(p, q);
    DecodeFirst(p);
    DecodeFirst(p + q);
  }

  lemma Regroup(i: Instr, a: seq<Instr>, b: seq<Instr>)
    ensures ([i] + a) + b == [i] + (a + b)
  {
  }

  /** Whole code decodes independently of what follows. */
  lemma {:induction false} DecodeConcat(p: seq<Byte>, q: seq<Byte>)
    requires Whole(p)
    ensures Decode(p + q) == Decode(p) + Decode(q)
    decreases |p|
  {
    if p == [] {
      assert p + q == q;
      assert Decode([]) + Decode(q) == Decode(q);
    } else {
      hide Decode, First, Whole;
      WholeFirst(p, q);
      var rest := p[Width(p[0])..];
      DecodeConcat(rest, q);
      Regroup(First(p), Decode(rest), Decode(q));
    }
  }

  /** Running p and then q is running q from where p leaves the machine. */
  lemma CodeConcat(s: GasSchedule, ctx: Context, p: seq<Byte>, q: seq<Byte>, stack: seq<int>, gas: nat)
    requires Whole(p)
    ensures var mid := Through(s, ctx, Decode(p), stack, gas);
            Run(s, ctx, Decode(p + q), stack, gas) == Resume(s, ctx, mid, Decode(q))
  {
    DecodeConcat(p, q);
    RunConcat(s, ctx, Decode(p), Decode(q), stack, gas);
  }

  // ----- Gas is static -----

  /** The price of the code up to its first halting instruction. */
  function StaticCost(s: GasSchedule, prog: seq<Instr>): nat
    decreases |prog|
  {
    if prog == [] then 0 else Cost(s, prog[0]) + if Halts(prog[0]) then 0 else StaticCost(s, prog[1..])
  }

  /**
   Unless it panics, a run is out of gas exactly when it has less than the static
   price, and otherwise has exactly that price less at the end.
   */
  lemma {:induction false} GasIsStatic(s: GasSchedule, ctx: Context, prog: seq<Instr>, stack: seq<int>, gas: nat)
    ensures var r := Run(s, ctx, prog, stack, gas);
            && (!r.Panicked? ==> (r.OutOfGas? <==> gas < StaticCost(s, prog)))
            && (r.Stopped? || r.Returned? || r.Reverted? ==> r.gas == gas - StaticCost(s, prog))
    decreases |prog|
  {
    if prog != [] {
      var step := Perform(s, ctx, prog[0], stack, gas);
      if step.Next? { GasIsStatic(s, ctx, prog[1..], step.stack, step.gas); }
    }
  }

  // ----- Stack depth is static too -----

  /** The instructions that panic with fewer than two numbers on the stack. */
  predicate NeedsTwo(i: Instr) { i.Binary? || i.Return? || i.Revert? }

  function DepthAfter(i: Instr, depth: nat): nat {
    match i
    case Binary(_) => if depth > 0 then depth - 1 else 0
    case Pop => if depth > 0 then depth - 1 else 0
    case ChainID => if depth < STACK_LIMIT then depth + 1 else depth
    case Caller => if depth < STACK_LIMIT then depth + 1 else depth
    case CallValue => if depth < STACK_LIMIT then depth + 1 else depth
    case GhostBrain => if depth < STACK_LIMIT then depth + 1 else depth
    case GhostBridge => if depth < STACK_LIMIT then depth + 1 else depth
    case Push(_) => if depth < STACK_LIMIT then depth + 1 else depth
    case _ => depth
  }

  /** The code comes to an instruction that finds too few numbers, by depth alone. */
  predicate RunsShort(prog: seq<Instr>, depth: nat)
    decreases |prog|
  {
    prog != [] && (
      || (NeedsTwo(prog[0]) && depth < 2)
      || (!Halts(prog[0]) && RunsShort(prog[1..], DepthAfter(prog[0], depth))))
  }

  /** The price up to and with that instruction. */
  function ShortCost(s: GasSchedule, prog: seq<Instr>, depth: nat): nat
    requires RunsShort(prog, depth)
    decreases |prog|
  {
    Cost(s, prog[0]) + if NeedsTwo(prog[0]) && depth < 2 then 0 else ShortCost(s, prog[1..], DepthAfter(prog[0], depth))
  }

  /** The first instruction that halts, if there is one, slices the memory. */
  predicate EndsInSlice(prog: seq<Instr>)
    decreases |prog|
  {
    prog != [] && (prog[0].Return? || prog[0].Revert? || (!Halts(prog[0]) && EndsInSlice(prog[1..])))
  }

  lemma PerformDepth(s: GasSchedule, ctx: Context, i: Instr, stack: seq<int>, gas: nat)
    requires gas >= Cost(s, i)
    ensures var step := Perform(s, ctx, i, stack, gas);
            if NeedsTwo(i) && |stack| < 2 then step == Halt(Panicked)
            else if Halts(i) then step.Halt? && (step.ending.Panicked? ==> i.Return? || i.Revert?) && !step.ending.OutOfGas?
            else step.Next? && |step.stack| == DepthAfter(i, |stack|) && step.gas == gas - Cost(s, i)
  {
  }

  /**
   Code that runs short panics exactly when it is paid for up to there, whatever
   the numbers on the stack. Other code panics at most in the slice it ends with.
   */
  lemma {:induction false} PanicIsStatic(s: GasSchedule, ctx: Context, prog: seq<Instr>, stack: seq<int>, gas: nat)
    ensures RunsShort(prog, |stack|) ==>
      Run(s, ctx, prog, stack, gas) == if gas < ShortCost(s, prog, |stack|) then OutOfGas else Panicked
    ensures !RunsShort(prog, |stack|) ==>
      var r := Run(s, ctx, prog, stack, gas);
      && (r.Panicked? ==> EndsInSlice(prog) && gas >= StaticCost(s, prog))
      && (r.OutOfGas? <==> gas < StaticCost(s, prog))
    decreases |prog|
  {
    if prog != [] && gas >= Cost(s, prog[0]) {
      PerformDepth(s, ctx, prog[0], stack, gas);
      hide Effect, Cost;
      var step := Perform(s, ctx, prog[0], stack, gas);
      if step.Next? { PanicIsStatic(s, ctx, prog[1..], step.stack, step.gas); }
    }
  }

  function WithGas(r: Ending, extra: nat): Ending {
    match r
    case Stopped(gas) => Stopped(gas + extra)
    case Returned(data, gas) => Returned(data, gas + extra)
    case Reverted(data, gas) => Reverted(data, gas + extra)
    case _ => r
  }

  lemma PerformWithGas(s: GasSchedule, ctx: Context, i: Instr, stack: seq<int>, gas: nat, extra: nat)
    requires gas >= Cost(s, i)
    ensures var step := Perform(s, ctx, i, stack, gas);
            Perform(s, ctx, i, stack, gas + extra) ==
              if step.Halt? then Halt(WithGas(step.ending, extra)) else Next(step.stack, step.gas + extra)
  {
  }

  /** Extra gas changes nothing but what remains. */
  lemma {:induction false} ExtraGasRemains(s: GasSchedule, ctx: Context, prog: seq<Instr>, stack: seq<int>, gas: nat, extra: nat)
    requires !Run(s, ctx, prog, stack, gas).OutOfGas?
    ensures Run(s, ctx, prog, stack, gas + extra) == WithGas(Run(s, ctx, prog, stack, gas), extra)
    decreases |prog|
  {
    if prog != [] {
      assert gas >= Cost(s, prog[0]);
      PerformWithGas(s, ctx, prog[0], stack, gas, extra);
      hide Perform;
      var step := Perform(s, ctx, prog[0], stack, gas);
      if step.Next? { ExtraGasRemains(s, ctx, prog[1..], step.stack, step.gas, extra); }
    }
  }
}
