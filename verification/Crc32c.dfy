/**
 The table-driven CRC-32C that guards DMA descriptors. It equals the polynomial
 long division of section 12.1 of RFC 3720, and it tells apart any two buffers
 that differ by a burst of at most 32 bits or in an odd number of bits.

 A machine word is the sequence of its bits, the least significant one first.
 */
module Crc32c {
  import opened Prelude

  type Bits = seq<bool>
  type Word = w: Bits | |w| == 32 witness Constant(false, 32)

  // ----- Bits and numbers -----

  function Constant(x: bool, n: nat): (bits: Bits)
    ensures |bits| == n
  {
    seq(n, _ => x)
  }

  /** The low `width` bits of a number. */
  function BitsOf(n: nat, width: nat): (bits: Bits)
    ensures |bits| == width
    decreases width
  {
    if width == 0 then [] else [n % 2 == 1] + BitsOf(n / 2, width - 1)
  }

  function ValueOf(bits: Bits): nat {
    if bits == [] then 0 else (if bits[0] then 1 else 0) + 2 * ValueOf(bits[1..])
  }

  function Xor(a: Bits, b: Bits): (r: Bits)
    requires |a| == |b|
    ensures |r| == |a|
  {
    seq(|a|, i requires 0 <= i < |a| => a[i] != b[i])
  }

  /** Logical shift right. */
  function Shr(w: Bits, k: nat): (r: Bits)
    requires k <= |w|
    ensures |r| == |w|
  {
    w[k..] + Constant(false, k)
  }

  // ----- The register -----

  function Poly(): Word { BitsOf(0x82F6_3B78, 32) }

  /** One step of the reflected shift register. */
  function Shift(n: Word): Word {
    if n[0] then Xor(Shr(n, 1), Poly()) else Shr(n, 1)
  }

  function Shifts(n: Word, k: nat): Word
    decreases k
  {
    if k == 0 then n else Shifts(Shift(n), k - 1)
  }

  /** The register after one message bit, and after a run of them. */
  function Feed(c: Word, bit: bool): Word {
    Shift(c[0 := c[0] != bit])
  }

  function Serial(c: Word, bits: Bits): Word
    decreases |bits|
  {
    if bits == [] then c else Serial(Feed(c, bits[0]), bits[1..])
  }

  /** A message as bits: byte after byte, the least significant bit of each first. */
  function Message(data: seq<Byte>): (bits: Bits)
    ensures |bits| == 8 * |data|
  {
    if data == [] then [] else BitsOf(data[0], 8) + Message(data[1..])
  }

  /** The checksum: all-ones start, every message bit, complemented. */
  function Crc(data: seq<Byte>): Word {
    Xor(Serial(Constant(true, 32), Message(data)), Constant(true, 32))
  }

  // ----- The reference: section 12.1 of RFC 3720 -----

  /** The powers of x in the generator 0x11EDC6F41. */
  predicate InGenerator(e: int) {
    e in {32, 28, 27, 26, 25, 23, 22, 20, 19, 18, 14, 13, 11, 10, 9, 8, 6, 0}
  }

  /** Its coefficients, highest power first. */
  function Generator(): (g: Bits)
    ensures |g| == 33
  {
    seq(33, i => InGenerator(32 - i))
  }

  /** The first |r| coefficients of t, exclusive-or r. */
  function Mix(r: Bits, t: Bits): (s: Bits)
    requires |r| <= |t|
    ensures |s| == |t|
  {
    Xor(r, t[..|r|]) + t[|r|..]
  }

  /** Long division by the generator: cancel the leading coefficient, drop it, repeat. */
  function Remainder(s: Bits): (r: Word)
    requires |s| >= 32
    decreases |s|
  {
    if |s| == 32 then s
    else if s[0] then Remainder(Mix(Generator(), s)[1..])
    else Remainder(s[1..])
  }

  /**
   The message times x^32, its first 32 coefficients complemented, divided by
   the generator, and the remainder complemented.
   */
  function ReferenceCrc(message: Bits): Word {
    Xor(Remainder(Mix(Constant(true, 32), message + Constant(false, 32))), Constant(true, 32))
  }

  // ----- The register is linear and one-to-one -----

  lemma ShiftLinear(x: Word, y: Word)
    ensures Shift(Xor(x, y)) == Xor(Shift(x), Shift(y))
  {
  }

  lemma Nibble(n: nat, width: nat)
    ensures BitsOf(n, width + 4) ==
      [n % 2 == 1, n / 2 % 2 == 1, n / 4 % 2 == 1, n / 8 % 2 == 1] + BitsOf(n / 16, width)
  {
    assert n / 2 / 2 == n / 4 && n / 4 / 2 == n / 8 && n / 8 / 2 == n / 16;
    assert BitsOf(n, width + 4) == [n % 2 == 1] + BitsOf(n / 2, width + 3);
    assert BitsOf(n / 2, width + 3) == [n / 2 % 2 == 1] + BitsOf(n / 4, width + 2);
    assert BitsOf(n / 4, width + 2) == [n / 4 % 2 == 1] + BitsOf(n / 8, width + 1);
  }

  lemma UpperHalf()
    ensures BitsOf(0x82F6, 16) == [false, true, true, false, true, true, true, true]
                                + [false, true, false, false, false, false, false, true]
  {
    hide BitsOf;
    Nibble(0x82F6, 12);
    Nibble(0x82F, 8);
    Nibble(0x82, 4);
    Nibble(0x8, 0);
  }

  lemma LowerHalf()
    ensures Poly() == [false, false, false, true, true, true, true, false]
                    + [true, true, false, true, true, true, false, false] + BitsOf(0x82F6, 16)
  {
    hide BitsOf;
    Nibble(0x82F6_3B78, 28);
    Nibble(0x82F_63B7, 24);
    Nibble(0x82_F63B, 20);
    Nibble(0x8_2F63, 16);
  }

  /** The source's constant is the generator without its leading coefficient. */
  lemma PolyIsGenerator()
    ensures Poly() == Generator()[1..]
  {
    UpperHalf();
    LowerHalf();
    hide Poly, BitsOf;
  }

  lemma ShiftInjective(x: Word)
    ensures Shift(x) == Constant(false, 32) <==> x == Constant(false, 32)
  {
    hide Poly;
    PolyIsGenerator();
    assert Poly()[31] == InGenerator(0);
    var zero := Constant(false, 32);
    assert zero[1..] + [false] == zero;
    if x[0] {
      assert Shift(x)[31] && !zero[31] && !zero[0];
    } else {
      assert Shift(x) == x[1..] + [false];
      if Shift(x) == zero {
        forall i | 0 <= i < 32
          ensures x[i] == zero[i]
        {
          if i > 0 { assert x[i] == Shift(x)[i - 1]; }
        }
      }
    }
  }

  lemma {:induction false} ShiftsLinear(x: Word, y: Word, k: nat)
    ensures Shifts(Xor(x, y), k) == Xor(Shifts(x, k), Shifts(y, k))
    decreases k
  {
    hide Shift, Xor;
    if k > 0 {
      ShiftLinear(x, y);
      ShiftsLinear(Shift(x), Shift(y), k - 1);
    }
  }

  lemma {:induction false} ShiftsInjective(x: Word, k: nat)
    ensures Shifts(x, k) == Constant(false, 32) <==> x == Constant(false, 32)
    decreases k
  {
    if k > 0 {
      ShiftInjective(x);
      ShiftsInjective(Shift(x), k - 1);
    }
  }

  /** Two runs differ as a run on the difference does. */
  lemma {:induction false} SerialLinear(c: Word, d: Word, x: Bits, y: Bits)
    requires |x| == |y|
    ensures Xor(Serial(c, x), Serial(d, y)) == Serial(Xor(c, d), Xor(x, y))
    decreases |x|
  {
    hide Poly;
    if x != [] {
      var p, q := c[0 := c[0] != x[0]], d[0 := d[0] != y[0]];
      assert Xor(p, q) == Xor(c, d)[0 := Xor(c, d)[0] != Xor(x, y)[0]];
      ShiftLinear(p, q);
      SerialLinear(Feed(c, x[0]), Feed(d, y[0]), x[1..], y[1..]);
      assert Xor(x, y)[1..] == Xor(x[1..], y[1..]);
    }
  }

  lemma {:induction false} SerialAppend(c: Word, x: Bits, y: Bits)
    ensures Serial(c, x + y) == Serial(Serial(c, x), y)
    decreases |x|
  {
    if x == [] {
      assert x + y == y;
    } else {
      assert (x + y)[1..] == x[1..] + y;
      SerialAppend(Feed(c, x[0]), x[1..], y);
    }
  }

  /** Bits widened to a word. */
  function Pad(bits: Bits): Word
    requires |bits| <= 32
  {
    bits + Constant(false, 32 - |bits|)
  }

  /** Feeding at most 32 bits one by one is feeding them all at once. */
  lemma {:induction false} SerialAtOnce(c: Word, bits: Bits)
    requires |bits| <= 32
    ensures Serial(c, bits) == Shifts(Xor(c, Pad(bits)), |bits|)
    decreases |bits|
  {
    hide Poly;
    if bits == [] {
      assert Xor(c, Pad(bits)) == c;
    } else {
      var first, rest := c[0 := c[0] != bits[0]], [false] + Pad(bits[1..])[..31];
      SerialAtOnce(Feed(c, bits[0]), bits[1..]);
      assert Pad(bits) == [bits[0]] + rest[1..];
      assert Shift(rest) == Pad(bits[1..]);
      ShiftLinear(first, rest);
      assert Xor(first, rest) == Xor(c, Pad(bits));
      assert Xor(Shift(first), Pad(bits[1..])) == Shift(Xor(c, Pad(bits)));
    }
  }

  // ----- The serial register does the reference's long division -----

  lemma MixAt(r: Bits, t: Bits, j: nat)
    requires |r| <= |t| && j < |t|
    ensures Mix(r, t)[j] == if j < |r| then r[j] != t[j] else t[j]
  {
  }

  lemma FeedAt(r: Word, bit: bool, j: nat)
    requires j < 32
    ensures Feed(r, bit)[j] == ((j < 31 && r[j + 1]) != ((r[0] != bit) && Generator()[j + 1]))
  {
    hide Poly, Generator;
    PolyIsGenerator();
    var c := r[0 := r[0] != bit];
    assert Shr(c, 1)[j] == (j < 31 && r[j + 1]);
  }

  lemma DivisionStep(r: Word, t: Bits)
    requires |t| > 32
    ensures Remainder(Mix(r, t)) == Remainder(Mix(Feed(r, t[0]), t[1..]))
  {
    var s := Mix(r, t);
    var next := if s[0] then Mix(Generator(), s)[1..] else s[1..];
    assert Remainder(s) == Remainder(next);
    hide Mix, Feed, Generator, Remainder;
    MixAt(r, t, 0);
    forall j | 0 <= j < |next|
      ensures next[j] == Mix(Feed(r, t[0]), t[1..])[j]
    {
      MixAt(r, t, j + 1);
      MixAt(Generator(), s, j + 1);
      MixAt(Feed(r, t[0]), t[1..], j);
      if j < 32 { FeedAt(r, t[0], j); }
    }
    assert next == Mix(Feed(r, t[0]), t[1..]);
  }

  lemma {:induction false} DivisionIsSerial(r: Word, t: Bits)
    ensures Remainder(Mix(r, t + Constant(false, 32))) == Serial(r, t)
    decreases |t|
  {
    var padded := t + Constant(false, 32);
    if t == [] {
      assert Mix(r, padded) == r;
    } else {
      DivisionStep(r, padded);
      assert padded[1..] == t[1..] + Constant(false, 32);
      DivisionIsSerial(Feed(r, t[0]), t[1..]);
    }
  }

  /** The checksum is the one RFC 3720 defines. */
  lemma CrcIsReference(data: seq<Byte>)
    ensures Crc(data) == ReferenceCrc(Message(data))
  {
    DivisionIsSerial(Constant(true, 32), Message(data));
  }

  // ----- What the checksum detects -----

  lemma {:induction false} SerialZeros(c: Word, n: nat)
    ensures Serial(c, Constant(false, n)) == Shifts(c, n)
    decreases n
  {
    hide Poly;
    if n > 0 {
      assert Constant(false, n)[1..] == Constant(false, n - 1);
      assert c[0 := c[0] != false] == c;
      SerialZeros(Shift(c), n - 1);
    }
  }

  /** Leading and trailing zeros neither make nor hide a trace. */
  lemma ZerosKeepTrace(lo: nat, window: Bits, hi: nat)
    ensures Serial(Constant(false, 32), Constant(false, lo) + window + Constant(false, hi)) == Constant(false, 32)
       <==> Serial(Constant(false, 32), window) == Constant(false, 32)
  {
    hide Serial, Shifts;
    var zero: Word := Constant(false, 32);
    SerialAppend(zero, Constant(false, lo) + window, Constant(false, hi));
    SerialAppend(zero, Constant(false, lo), window);
    SerialZeros(zero, lo);
    ShiftsInjective(zero, lo);
    SerialZeros(Serial(zero, window), hi);
    ShiftsInjective(Serial(zero, window), hi);
  }

  lemma WindowLeavesTrace(window: Bits, k: nat)
    requires |window| <= 32 && k < |window| && window[k]
    ensures Serial(Constant(false, 32), window) != Constant(false, 32)
  {
    hide Serial, Shifts;
    var zero: Word := Constant(false, 32);
    SerialAtOnce(zero, window);
    assert Xor(zero, Pad(window))[k] && !zero[k];
    ShiftsInjective(Xor(zero, Pad(window)), |window|);
  }

  /** An error pattern inside a window of 32 bits leaves a nonzero register. */
  lemma BurstLeavesTrace(e: Bits, s: nat, k: nat)
    requires forall j :: 0 <= j < |e| && e[j] ==> s <= j < s + 32
    requires k < |e| && e[k]
    ensures Serial(Constant(false, 32), e) != Constant(false, 32)
  {
    hide Serial;
    var hi := if s + 32 < |e| then s + 32 else |e|;
    var window := e[s..hi];
    assert e == Constant(false, s) + window + Constant(false, |e| - hi);
    assert window[k - s];
    WindowLeavesTrace(window, k - s);
    ZerosKeepTrace(s, window, |e| - hi);
  }

  /** Two checksums agree exactly when the error pattern leaves no trace. */
  lemma CrcDifference(a: seq<Byte>, b: seq<Byte>)
    requires |a| == |b|
    ensures Crc(a) == Crc(b) <==> Serial(Constant(false, 32), Xor(Message(a), Message(b))) == Constant(false, 32)
  {
    var ones: Word := Constant(true, 32);
    SerialLinear(ones, ones, Message(a), Message(b));
    assert Xor(ones, ones) == Constant(false, 32);
    var (x, y) := (Serial(ones, Message(a)), Serial(ones, Message(b)));
    assert forall i :: 0 <= i < 32 ==> Xor(x, y)[i] == (x[i] != y[i]) && Xor(x, ones)[i] == !x[i] && Xor(y, ones)[i] == !y[i];
    if Crc(a) == Crc(b) { assert forall i :: 0 <= i < 32 ==> Xor(x, ones)[i] == Xor(y, ones)[i]; }
    if Xor(x, y) == Constant(false, 32) { assert x == y; }
  }

  lemma {:induction false} ValueOfBits(bits: Bits, extra: nat)
    ensures BitsOf(ValueOf(bits), |bits| + extra) == bits + Constant(false, extra)
    decreases |bits| + extra
  {
    if bits != [] {
      ValueOfBits(bits[1..], extra);
      assert ValueOf(bits) / 2 == ValueOf(bits[1..]);
    } else if extra > 0 {
      ValueOfBits(bits, extra - 1);
      assert Constant(false, extra) == [false] + Constant(false, extra - 1);
    }
  }

  function Pow2(n: nat): nat { if n == 0 then 1 else 2 * Pow2(n - 1) }

  lemma {:induction false} BitsOfValue(n: nat, width: nat)
    requires n < Pow2(width)
    ensures ValueOf(BitsOf(n, width)) == n
    decreases width
  {
    if width > 0 { BitsOfValue(n / 2, width - 1); }
  }

  lemma {:induction false} MessageInjective(a: seq<Byte>, b: seq<Byte>)
    requires |a| == |b| && Message(a) == Message(b)
    ensures a == b
  {
    if a != [] {
      assert BitsOf(a[0], 8) == Message(a)[..8] && BitsOf(b[0], 8) == Message(b)[..8];
      assert Pow2(8) == 256 by { assert Pow2(4) == 16; }
      BitsOfValue(a[0], 8);
      BitsOfValue(b[0], 8);
      assert Message(a[1..]) == Message(a)[8..] && Message(b[1..]) == Message(b)[8..];
      MessageInjective(a[1..], b[1..]);
    }
  }

  /** Any two buffers that differ only inside a window of 32 consecutive bits have different checksums. */
  lemma BurstDetected(a: seq<Byte>, b: seq<Byte>, s: nat)
    requires |a| == |b| && a != b
    requires forall k :: 0 <= k < 8 * |a| && Message(a)[k] != Message(b)[k] ==> s <= k < s + 32
    ensures Crc(a) != Crc(b)
  {
    hide Serial, Message, Crc;
    var e := Xor(Message(a), Message(b));
    if Message(a) == Message(b) { MessageInjective(a, b); }
    var k :| 0 <= k < |e| && Message(a)[k] != Message(b)[k];
    BurstLeavesTrace(e, s, k);
    CrcDifference(a, b);
  }

  /** Whether a number of bits, or of bit errors, is odd. */
  function Odd(bits: Bits): bool {
    if bits == [] then false else bits[0] != Odd(bits[1..])
  }

  lemma {:induction false} OddAppend(x: Bits, y: Bits)
    ensures Odd(x + y) == (Odd(x) != Odd(y))
  {
    if x == [] {
      assert x + y == y;
    } else {
      assert (x + y)[1..] == x[1..] + y;
      OddAppend(x[1..], y);
    }
  }

  lemma {:induction false} OddXor(x: Bits, y: Bits)
    requires |x| == |y|
    ensures Odd(Xor(x, y)) == (Odd(x) != Odd(y))
  {
    if x != [] {
      assert Xor(x, y)[1..] == Xor(x[1..], y[1..]);
      OddXor(x[1..], y[1..]);
    }
  }

  lemma {:induction false} OddZeros(n: nat)
    ensures !Odd(Constant(false, n))
  {
    if n > 0 {
      assert Constant(false, n)[1..] == Constant(false, n - 1);
      OddZeros(n - 1);
    }
  }

  lemma OddTwo(x: Bits, k: nat)
    requires k + 2 <= |x|
    ensures Odd(x[k..]) == (x[k] != (x[k + 1] != Odd(x[k + 2..])))
  {
  }

  lemma OddEight(x: Bits)
    requires |x| == 8
    ensures Odd(x) == (x[0] != (x[1] != (x[2] != (x[3] != (x[4] != (x[5] != (x[6] != x[7])))))))
  {
    assert x[0..] == x && !Odd(x[8..]);
    hide Odd;
    OddTwo(x, 0);
    OddTwo(x, 2);
    OddTwo(x, 4);
    OddTwo(x, 6);
  }

  lemma OddPoly()
    ensures Odd(Poly())
  {
    var p := Poly();
    UpperHalf();
    LowerHalf();
    hide Poly, Odd, BitsOf;
    assert p == p[..8] + (p[8..16] + (p[16..24] + p[24..]));
    OddAppend(p[..8], p[8..16] + (p[16..24] + p[24..]));
    OddAppend(p[8..16], p[16..24] + p[24..]);
    OddAppend(p[16..24], p[24..]);
    OddEight(p[..8]);
    OddEight(p[8..16]);
    OddEight(p[16..24]);
    OddEight(p[24..]);
  }

  /** The generator has an even number of terms, so the register keeps the parity of what went in. */
  lemma ShiftKeepsOdd(n: Word)
    ensures Odd(Shift(n)) == Odd(n)
  {
    OddPoly();
    hide Poly;
    OddXor(Shr(n, 1), Poly());
    OddAppend(n[1..], Constant(false, 1));
    OddZeros(1);
  }

  lemma {:induction false} SerialKeepsOdd(c: Word, bits: Bits)
    ensures Odd(Serial(c, bits)) == (Odd(c) != Odd(bits))
    decreases |bits|
  {
    if bits != [] {
      var d: Word := c[0 := c[0] != bits[0]];
      assert d[1..] == c[1..];
      ShiftKeepsOdd(d);
      SerialKeepsOdd(Feed(c, bits[0]), bits[1..]);
    }
  }

  /** Any two buffers that differ in an odd number of bits have different checksums. */
  lemma OddErrorDetected(a: seq<Byte>, b: seq<Byte>)
    requires |a| == |b| && Odd(Xor(Message(a), Message(b)))
    ensures Crc(a) != Crc(b)
  {
    SerialKeepsOdd(Constant(false, 32), Xor(Message(a), Message(b)));
    OddZeros(32);
    CrcDifference(a, b);
  }

  // ----- The table -----

  method MakeTableEntry(start: Word) returns (n: Word)
    ensures n == Shifts(start, 8)
  {
    n := start;
    for k := 0 to 8
      invariant Shifts(n, 8 - k) == Shifts(start, 8)
    {
      n := if n[0] then Xor(Shr(n, 1), Poly()) else Shr(n, 1);
    }
  }

  /** The process-wide table, filled on first use. */
  class Table {
    var table: array<Word>
    var init: bool

    ghost predicate Valid()
      reads this, table
    {
      && table.Length == 256
      && (init ==> forall i :: 0 <= i < 256 ==> table[i] == Shifts(BitsOf(i, 32), 8))
    }

    constructor ()
      ensures Valid() && !init && fresh(table)
    {
      table := new Word[256](_ => Constant(false, 32));
      init := false;
    }

    method Get() returns (t: array<Word>)
      requires Valid()
      modifies this, table
      ensures Valid() && init && t == table == old(table)
    {
      hide Shifts, BitsOf;
      if !init {
        for i := 0 to 256
          invariant Valid() && !init && table == old(table)
          invariant forall j :: 0 <= j < i ==> table[j] == Shifts(BitsOf(j, 32), 8)
        {
          var n := MakeTableEntry(BitsOf(i, 32));
          table[i] := n;
        }
        init := true;
      }
      t := table;
    }
  }

  lemma ShiftEven(x: Word)
    requires !x[0]
    ensures Shift(x) == Shr(x, 1)
  {
  }

  lemma ShrTwice(x: Word, k: nat)
    requires 0 < k <= 32
    ensures Shr(Shr(x, 1), k - 1) == Shr(x, k)
    ensures forall i :: 0 <= i < k - 1 ==> Shr(x, 1)[i] == x[i + 1]
  {
  }

  /** Low zero bits shift out without feedback. */
  lemma {:induction false} ShiftsClear(x: Word, k: nat)
    requires k <= 32 && forall i :: 0 <= i < k ==> !x[i]
    ensures Shifts(x, k) == Shr(x, k)
    decreases k
  {
    if k == 0 {
      assert Shr(x, 0) == x;
    } else {
      hide Shift, Shr;
      ShiftEven(x);
      ShrTwice(x, k);
      ShiftsClear(Shift(x), k - 1);
    }
  }

  /** One table lookup feeds one byte. */
  lemma LookupFeedsByte(c: Word, b: Byte)
    ensures var i := ValueOf(Xor(c, BitsOf(b, 32))[..8]);
            i < 256 && Xor(Shr(c, 8), Shifts(BitsOf(i, 32), 8)) == Serial(c, BitsOf(b, 8))
  {
    hide Serial, Shifts, Shift, BitsOf, ValueOf;
    var x := Xor(c, BitsOf(b, 32));
    ByteWidens(b);
    SerialAtOnce(c, BitsOf(b, 8));
    ValueOfBits(x[..8], 24);
    ValueIsByte(x[..8]);
    var lo, hi: Word := x[..8] + Constant(false, 24), Constant(false, 8) + x[8..];
    assert Xor(lo, hi) == x;
    ShiftsLinear(lo, hi, 8);
    ShiftsClear(hi, 8);
    assert Shr(hi, 8) == Shr(c, 8);
    assert Xor(Shr(c, 8), Shifts(lo, 8)) == Xor(Shifts(lo, 8), Shr(c, 8));
  }

  lemma ValueIsByte(bits: Bits)
    requires |bits| == 8
    ensures ValueOf(bits) < 256
  {
    ValueBelow(bits);
    assert Pow2(8) == 256 by { assert Pow2(4) == 16; }
  }

  lemma {:induction false} ValueBelow(bits: Bits)
    ensures ValueOf(bits) < Pow2(|bits|)
  {
    if bits != [] { ValueBelow(bits[1..]); }
  }

  lemma ByteWidens(b: Byte)
    ensures BitsOf(b, 32) == Pad(BitsOf(b, 8))
  {
    assert Pow2(8) == 256 by { assert Pow2(4) == 16; }
    BitsOfValue(b, 8);
    ValueOfBits(BitsOf(b, 8), 24);
  }

  lemma {:induction false} MessageAppend(a: seq<Byte>, b: Byte)
    ensures Message(a + [b]) == Message(a) + BitsOf(b, 8)
  {
    if a == [] {
      assert a + [b] == [b] && Message([b]) == BitsOf(b, 8) + Message([]);
    } else {
      assert (a + [b])[1..] == a[1..] + [b];
      MessageAppend(a[1..], b);
    }
  }

  lemma NothingFed()
    ensures Message([]) == [] && Serial(Constant(true, 32), []) == Constant(true, 32)
  {
  }

  /** The checksum of a buffer, one table lookup a byte. */
  method ComputeCrc(t: Table, data: seq<Byte>) returns (crc: Word)
    requires t.Valid()
    modifies t, t.table
    ensures t.Valid() && t.table == old(t.table)
    ensures crc == Crc(data)
  {
    hide Serial, Message, Shifts, BitsOf, ValueOf, Constant;
    var table := t.Get();
    assert Message([]) == [] && Serial(Constant(true, 32), []) == Constant(true, 32) by { NothingFed(); }
    crc := Constant(true, 32);
    for i := 0 to |data|
      invariant t.Valid() && t.init && table == t.table == old(t.table)
      invariant crc == Serial(Constant(true, 32), Message(data[..i]))
    {
      LookupFeedsByte(crc, data[i]);
      MessageAppend(data[..i], data[i]);
      assert data[..i + 1] == data[..i] + [data[i]];
      SerialAppend(Constant(true, 32), Message(data[..i]), BitsOf(data[i], 8));
      crc := Xor(Shr(crc, 8), table[ValueOf(Xor(crc, BitsOf(data[i], 32))[..8])]);
    }
    assert data[..|data|] == data && Crc(data) == Xor(Serial(Constant(true, 32), Message(data)), Constant(true, 32));
    crc := Xor(crc, Constant(true, 32));
  }

  datatype DmaFault = CrcMismatch(channel: nat, actual: Word, expected: Word)

  /** A descriptor is rejected exactly when its contents do not have the expected checksum. */
  method VerifyDmaCrc(t: Table, channel: nat, data: seq<Byte>, expected: Word) returns (r: Option<DmaFault>)
    requires t.Valid()
    modifies t, t.table
    ensures t.Valid() && t.table == old(t.table)
    ensures r == if Crc(data) == expected then None else Some(CrcMismatch(channel, Crc(data), expected))
  {
    var actual := ComputeCrc(t, data);
    if actual != expected { return Some(CrcMismatch(channel, actual, expected)); }
    return None;
  }
}
