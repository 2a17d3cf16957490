/**
 What bytecode computes: for every opcode of the machine, and for a few programs,
 the stack, the gas and the ending, in numbers and bytes alone.
 */
module GvmPrograms {
  import opened Prelude
  import opened GvmSpec
  import Gvm

  /** From a machine state through some bytes, until something stops it. */
  function Exec(s: GasSchedule, ctx: Context, code: seq<Byte>, stack: seq<int>, gas: nat): Step {
    Through(s, ctx, Decode(code), stack, gas)
  }

  lemma OneInstruction(s: GasSchedule, ctx: Context, i: Instr, stack: seq<int>, gas: nat)
    ensures Through(s, ctx, [i], stack, gas) == Perform(s, ctx, i, stack, gas)
  {
    hide Perform;
    assert [i][1..] == [];
    var step := Perform(s, ctx, i, stack, gas);
    assert step.Next? ==> Through(s, ctx, [], step.stack, step.gas) == step;
  }

  lemma DecodeLast(code: seq<Byte>)
    requires code != [] && Width(code[0]) == |code|
    ensures Decode(code) == [First(code)]
  {
    hide First, Width;
    DecodeFirst(code);
    assert code[|code|..] == [] && Decode([]) == [];
    assert [First(code)] + [] == [First(code)];
  }

  lemma OneByte(s: GasSchedule, ctx: Context, op: Byte, stack: seq<int>, gas: nat)
    requires !(0x60 <= op <= 0x7f)
    ensures Exec(s, ctx, [op], stack, gas) == Perform(s, ctx, Simple(op), stack, gas)
  {
    hide Perform, Simple, Through, Decode;
    DecodeLast([op]);
    OneInstruction(s, ctx, Simple(op), stack, gas);
  }

  // ----- Arithmetic: a is on top, b below it -----

  lemma AddComputes(s: GasSchedule, ctx: Context, stack: seq<int>, a: int, b: int, gas: nat)
    requires |stack| + 2 <= 1024 && gas >= s.veryLow
    ensures Exec(s, ctx, [0x01], stack + [b, a], gas) == Next(stack + [a + b], gas - s.veryLow)
  {
    OneByte(s, ctx, 0x01, stack + [b, a], gas);
    assert (stack + [b, a])[..|stack|] == stack;
  }

  lemma MulComputes(s: GasSchedule, ctx: Context, stack: seq<int>, a: int, b: int, gas: nat)
    requires |stack| + 2 <= 1024 && gas >= s.low
    ensures Exec(s, ctx, [0x02], stack + [b, a], gas) == Next(stack + [a * b], gas - s.low)
  {
    OneByte(s, ctx, 0x02, stack + [b, a], gas);
    assert (stack + [b, a])[..|stack|] == stack;
  }

  lemma SubComputes(s: GasSchedule, ctx: Context, stack: seq<int>, a: int, b: int, gas: nat)
    requires |stack| + 2 <= 1024 && gas >= s.veryLow
    ensures Exec(s, ctx, [0x03], stack + [b, a], gas) == Next(stack + [a - b], gas - s.veryLow)
  {
    OneByte(s, ctx, 0x03, stack + [b, a], gas);
    assert (stack + [b, a])[..|stack|] == stack;
  }

  /** The quotient q of a by b, with a remainder that is never negative; 0 for a zero divisor. */
  lemma DivComputes(s: GasSchedule, ctx: Context, stack: seq<int>, a: int, b: int, gas: nat) returns (q: int)
    requires |stack| + 2 <= 1024 && gas >= s.low
    ensures Exec(s, ctx, [0x04], stack + [b, a], gas) == Next(stack + [q], gas - s.low)
    ensures b == 0 ==> q == 0
    ensures b > 0 ==> 0 <= a - q * b < b
    ensures b < 0 ==> 0 <= a - q * b < -b
  {
    q := if b == 0 then 0 else a / b;
    assert b != 0 ==> a - q * b == a % b;
    OneByte(s, ctx, 0x04, stack + [b, a], gas);
    assert (stack + [b, a])[..|stack|] == stack;
  }

  /** With fewer than two numbers, each of them panics once it is paid for. */
  lemma ArithmeticNeedsTwo(s: GasSchedule, ctx: Context, op: Byte, stack: seq<int>, gas: nat)
    requires op in {0x01, 0x02, 0x03, 0x04} && |stack| < 2
    ensures var price := if op in {0x01, 0x03} then s.veryLow else s.low;
            Exec(s, ctx, [op], stack, gas) == Halt(if gas < price then OutOfGas else Panicked)
  {
    OneByte(s, ctx, op, stack, gas);
  }

  // ----- Environment and stack -----

  lemma {:induction false} BytesOfValue(bytes: seq<Byte>)
    ensures ValueOf(bytes) < Pow256(|bytes|) && BigEndian(ValueOf(bytes), |bytes|) == bytes
    decreases |bytes|
  {
    if bytes != [] {
      var (init, last) := (bytes[..|bytes| - 1], bytes[|bytes| - 1]);
      BytesOfValue(init);
      assert (256 * ValueOf(init) + last) / 256 == ValueOf(init);
      assert init + [last] == bytes;
    }
  }

  /** The caller's address as a number: its twenty bytes, most significant first. */
  lemma CallerComputes(s: GasSchedule, ctx: Context, stack: seq<int>, gas: nat) returns (v: nat)
    requires |stack| < 1024 && gas >= s.base
    ensures v < Pow256(20) && BigEndian(v, 20) == ctx.caller
    ensures Exec(s, ctx, [0x33], stack, gas) == Next(stack + [v], gas - s.base)
  {
    v := ValueOf(ctx.caller);
    BytesOfValue(ctx.caller);
    OneByte(s, ctx, 0x33, stack, gas);
  }

  lemma CallValueComputes(s: GasSchedule, ctx: Context, stack: seq<int>, gas: nat)
    requires |stack| < 1024 && gas >= s.base
    ensures Exec(s, ctx, [0x34], stack, gas) == Next(stack + [ctx.value], gas - s.base)
  {
    OneByte(s, ctx, 0x34, stack, gas);
  }

  lemma ChainIdComputes(s: GasSchedule, ctx: Context, stack: seq<int>, gas: nat)
    requires |stack| < 1024 && gas >= s.base
    ensures Exec(s, ctx, [0x46], stack, gas) == Next(stack + [ctx.chainID], gas - s.base)
  {
    OneByte(s, ctx, 0x46, stack, gas);
  }

  /** Popping an empty stack is no error. */
  lemma PopComputes(s: GasSchedule, ctx: Context, stack: seq<int>, v: int, gas: nat)
    requires gas >= s.base
    ensures Exec(s, ctx, [0x50], stack + [v], gas) == Next(stack, gas - s.base)
    ensures Exec(s, ctx, [0x50], [], gas) == Next([], gas - s.base)
  {
    OneByte(s, ctx, 0x50, stack + [v], gas);
    OneByte(s, ctx, 0x50, [], gas);
  }

  /** The oracle and the bridge answer 1, for their own prices; a jump destination only costs. */
  lemma ExtensionsCompute(s: GasSchedule, ctx: Context, stack: seq<int>, gas: nat)
    requires |stack| < 1024
    ensures gas >= s.ghostBrain ==> Exec(s, ctx, [0xe0], stack, gas) == Next(stack + [1], gas - s.ghostBrain)
    ensures gas >= s.ghostBridge ==> Exec(s, ctx, [0xe2], stack, gas) == Next(stack + [1], gas - s.ghostBridge)
    ensures gas >= s.jumpDest ==> Exec(s, ctx, [0x5b], stack, gas) == Next(stack, gas - s.jumpDest)
  {
    OneByte(s, ctx, 0xe0, stack, gas);
    OneByte(s, ctx, 0xe2, stack, gas);
    OneByte(s, ctx, 0x5b, stack, gas);
  }

  /** A push of 1 to 32 bytes leaves the number they spell, most significant first. */
  lemma PushComputes(s: GasSchedule, ctx: Context, bytes: seq<Byte>, stack: seq<int>, gas: nat) returns (v: nat)
    requires 1 <= |bytes| <= 32 && |stack| < 1024 && gas >= s.veryLow
    ensures v < Pow256(|bytes|) && BigEndian(v, |bytes|) == bytes
    ensures Exec(s, ctx, [0x5f + |bytes|] + bytes, stack, gas) == Next(stack + [v], gas - s.veryLow)
  {
    v := ValueOf(bytes);
    BytesOfValue(bytes);
    PushIs(s, ctx, bytes, stack, gas);
  }

  lemma PushIs(s: GasSchedule, ctx: Context, bytes: seq<Byte>, stack: seq<int>, gas: nat)
    requires 1 <= |bytes| <= 32
    ensures Exec(s, ctx, [0x5f + |bytes|] + bytes, stack, gas) == Perform(s, ctx, Push(ValueOf(bytes)), stack, gas)
  {
    hide Perform, ValueOf, Through, Decode;
    var code: seq<Byte> := [0x5f + |bytes|] + bytes;
    assert code[1..|code|] == bytes;
    DecodeLast(code);
    OneInstruction(s, ctx, Push(ValueOf(bytes)), stack, gas);
  }

  /** On a full stack whatever would be pushed is dropped, and paid for. */
  lemma FullStackDrops(s: GasSchedule, ctx: Context, bytes: seq<Byte>, stack: seq<int>, gas: nat)
    requires 1 <= |bytes| <= 32 && |stack| == 1024 && gas >= s.veryLow && gas >= s.base
    ensures Exec(s, ctx, [0x5f + |bytes|] + bytes, stack, gas) == Next(stack, gas - s.veryLow)
    ensures Exec(s, ctx, [0x46], stack, gas) == Next(stack, gas - s.base)
  {
    PushIs(s, ctx, bytes, stack, gas);
    OneByte(s, ctx, 0x46, stack, gas);
  }

  // ----- Endings -----

  /** A push whose bytes the code does not have ends the run, once it is paid for. */
  lemma TruncatedEnds(s: GasSchedule, ctx: Context, n: nat, bytes: seq<Byte>, stack: seq<int>, gas: nat)
    requires |bytes| < n <= 32
    ensures Exec(s, ctx, [0x5f + n] + bytes, stack, gas) == Halt(if gas < s.veryLow then OutOfGas else PushOutOfBounds)
  {
    hide Through, Decode;
    var code: seq<Byte> := [0x5f + n] + bytes;
    DecodeFirst(code);
    OneInstruction(s, ctx, TruncatedPush, stack, gas);
  }

  /** What a caller is told of each ending: failures report no gas at all, and only they and reverts are reverted. */
  lemma EndingsReport(gas: nat, data: seq<Byte>, left: nat)
    requires left <= gas
    ensures Gvm.Report(gas, Stopped(left)) == Gvm.Result.Result([], gas - left, left, false, None)
    ensures Gvm.Report(gas, Returned(data, left)) == Gvm.Result.Result(data, gas - left, left, false, None)
    ensures Gvm.Report(gas, Reverted(data, left)) == Gvm.Result.Result(data, gas - left, left, true, Some(Gvm.RevertedError))
    ensures Gvm.Report(gas, OutOfGas) == Gvm.Result.Result([], 0, 0, true, Some(Gvm.OutOfGasError))
    ensures Gvm.Report(gas, PushOutOfBounds) == Gvm.Result.Result([], 0, 0, true, Some(Gvm.PushOutOfBoundsError))
    ensures Gvm.Report(gas, Panicked) == Gvm.Result.Panic
  {
  }

  lemma StopEnds(s: GasSchedule, ctx: Context, stack: seq<int>, gas: nat)
    ensures Exec(s, ctx, [0x00], stack, gas) == Halt(Stopped(gas))
  {
    OneByte(s, ctx, 0x00, stack, gas);
  }

  /** Nothing writes the memory, so what is returned, or handed back by a revert, is zeros. */
  lemma ReturnEnds(s: GasSchedule, ctx: Context, stack: seq<int>, offset: nat, size: nat, gas: nat)
    requires offset + size < 0x8000_0000_0000_0000 && gas >= s.veryLow
    ensures var (data, left) := (seq(size, _ => 0), gas - s.veryLow);
            && Exec(s, ctx, [0xf3], stack + [size, offset], gas) == Halt(Returned(data, left))
            && Exec(s, ctx, [0xfd], stack + [size, offset], gas) == Halt(Reverted(data, left))
  {
    OneByte(s, ctx, 0xf3, stack + [size, offset], gas);
    OneByte(s, ctx, 0xfd, stack + [size, offset], gas);
    assert SignedView(size) == size && SignedView(offset) == offset;
  }

  /** Every byte that is no opcode of the machine is skipped for nothing. */
  lemma UnknownSkips(s: GasSchedule, ctx: Context, op: Byte, stack: seq<int>, gas: nat)
    requires op !in {0x00, 0x01, 0x02, 0x03, 0x04, 0x33, 0x34, 0x46, 0x50, 0x5b, 0xe0, 0xe2, 0xf3, 0xfd}
    requires !(0x60 <= op <= 0x7f)
    ensures Exec(s, ctx, [op], stack, gas) == Next(stack, gas)
  {
    OneByte(s, ctx, op, stack, gas);
  }

  /** The price of each opcode: one unit less is out of gas. */
  lemma PricesAreLimits(s: GasSchedule, ctx: Context, op: Byte, stack: seq<int>, gas: nat)
    requires op in {0x01, 0x02, 0x03, 0x04, 0x33, 0x34, 0x46, 0x50, 0x5b, 0xe0, 0xe2, 0xf3, 0xfd}
    ensures var price := if op in {0x01, 0x03, 0xf3, 0xfd} then s.veryLow
                         else if op in {0x02, 0x04} then s.low
                         else if op == 0x5b then s.jumpDest
                         else if op == 0xe0 then s.ghostBrain
                         else if op == 0xe2 then s.ghostBridge
                         else s.base;
            Exec(s, ctx, [op], stack, gas) == Halt(OutOfGas) <==> gas < price
  {
    OneByte(s, ctx, op, stack, gas);
  }

  // ----- Programs -----

  lemma {:induction false} ThroughConcat(s: GasSchedule, ctx: Context, p: seq<Instr>, q: seq<Instr>, stack: seq<int>, gas: nat)
    ensures var mid := Through(s, ctx, p, stack, gas);
            Through(s, ctx, p + q, stack, gas) == if mid.Halt? then mid else Through(s, ctx, q, mid.stack, mid.gas)
    decreases |p|
  {
    hide Perform;
    if p == [] {
      assert p + q == q;
    } else {
      assert (p + q)[1..] == p[1..] + q;
      var step := Perform(s, ctx, p[0], stack, gas);
      if step.Next? { ThroughConcat(s, ctx, p[1..], q, step.stack, step.gas); }
    }
  }

  /** Code after whole code goes on where that left the machine. */
  lemma ExecConcat(s: GasSchedule, ctx: Context, p: seq<Byte>, q: seq<Byte>, stack: seq<int>, gas: nat)
    requires Whole(p)
    ensures var mid := Exec(s, ctx, p, stack, gas);
            Exec(s, ctx, p + q, stack, gas) == if mid.Halt? then mid else Exec(s, ctx, q, mid.stack, mid.gas)
  {
    hide Through, Decode, Whole;
    DecodeConcat(p, q);
    ThroughConcat(s, ctx, Decode(p), Decode(q), stack, gas);
  }

  lemma PushOne(s: GasSchedule, ctx: Context, x: Byte, stack: seq<int>, gas: nat)
    requires |stack| < 1024 && gas >= s.veryLow
    ensures Exec(s, ctx, [0x60, x], stack, gas) == Next(stack + [x], gas - s.veryLow) && Whole([0x60, x])
  {
    PushIs(s, ctx, [x], stack, gas);
    assert [x][..0] == [] && ValueOf([x]) == x;
    assert [0x5f + |[x]|] + [x] == [0x60, x];
    assert [0x60, x][2..] == [];
  }

  /** PUSH1 x, PUSH1 y, SUB: y - x. */
  lemma SubtractProgram(s: GasSchedule, ctx: Context, x: Byte, y: Byte, stack: seq<int>, gas: nat)
    requires |stack| + 2 <= 1024 && gas >= 3 * s.veryLow
    ensures Exec(s, ctx, [0x60, x] + ([0x60, y] + [0x03]), stack, gas) == Next(stack + [y - x], gas - 3 * s.veryLow)
  {
    hide Exec, Whole;
    PushOne(s, ctx, x, stack, gas);
    PushOne(s, ctx, y, stack + [x], gas - s.veryLow);
    ExecConcat(s, ctx, [0x60, x], [0x60, y] + [0x03], stack, gas);
    ExecConcat(s, ctx, [0x60, y], [0x03], stack + [x], gas - s.veryLow);
    SubComputes(s, ctx, stack, y, x, gas - 2 * s.veryLow);
    assert stack + [x] + [y] == stack + [x, y];
  }

  lemma RunOfThrough(s: GasSchedule, ctx: Context, prog: seq<Instr>, stack: seq<int>, gas: nat)
    ensures var step := Through(s, ctx, prog, stack, gas);
            Run(s, ctx, prog, stack, gas) == if step.Halt? then step.ending else Stopped(step.gas)
  {
    assert prog + [] == prog;
    RunConcat(s, ctx, prog, [], stack, gas);
  }

  lemma ReturnProgram(s: GasSchedule, ctx: Context, size: nat, o: Byte, gas: nat)
    requires size < 256 && gas >= 2 * s.veryLow
    ensures Exec(s, ctx, [0x60, o] + [0xf3], [size], gas) == Halt(Returned(seq(size, _ => 0), gas - 2 * s.veryLow))
  {
    hide Exec, Whole;
    PushOne(s, ctx, o, [size], gas);
    ExecConcat(s, ctx, [0x60, o], [0xf3], [size], gas);
    ReturnEnds(s, ctx, [], o, size, gas - s.veryLow);
    assert [size] + [o] == [] + [size, o];
  }

  /**
   The whole program PUSH1 x, PUSH1 y, SUB, PUSH1 o, RETURN, as a caller sees it:
   y - x zero bytes and the price of five instructions, if y is at least x.
   */
  lemma SubtractAndReturn(s: GasSchedule, ctx: Context, x: Byte, y: Byte, o: Byte)
    requires ctx.code == [0x60, x] + ([0x60, y] + [0x03]) + ([0x60, o] + [0xf3])
    requires x <= y && ctx.gas >= 5 * s.veryLow
    ensures Gvm.Report(ctx.gas, Run(s, ctx, Decode(ctx.code), [], ctx.gas))
         == Gvm.Result.Result(seq(y - x, _ => 0), 5 * s.veryLow, ctx.gas - 5 * s.veryLow, false, None)
  {
    SubtractIsWhole(x, y);
    assert Exec(s, ctx, ctx.code, [], ctx.gas) == Through(s, ctx, Decode(ctx.code), [], ctx.gas);
    hide Exec, Through, Decode, Whole, Run;
    SubtractProgram(s, ctx, x, y, [], ctx.gas);
    assert [] + [y - x] == [y - x];
    ExecConcat(s, ctx, [0x60, x] + ([0x60, y] + [0x03]), [0x60, o] + [0xf3], [], ctx.gas);
    ReturnProgram(s, ctx, y - x, o, ctx.gas - 3 * s.veryLow);
    RunOfThrough(s, ctx, Decode(ctx.code), [], ctx.gas);
  }

  lemma SubtractIsWhole(x: Byte, y: Byte)
    ensures Whole([0x60, x] + ([0x60, y] + [0x03]))
  {
    var code: seq<Byte> := [0x60, x] + ([0x60, y] + [0x03]);
    assert code[2..] == [0x60, y, 0x03] && [0x60, y, 0x03][2..] == [0x03] && [0x03][1..] == [];
    assert Whole([]) && Whole([0x03]) && Whole([0x60, y, 0x03]);
  }
}
