/** The few generic types the other modules share. */
module Prelude {

  /** A value that may be absent. */
  datatype Option<+T> = None | Some(value: T)

  const TWO_63: int := 0x8000_0000_0000_0000
  const TWO_64: int := 0x1_0000_0000_0000_0000

  type Byte = x: int | 0 <= x < 256
  type Address = a: seq<Byte> | |a| == 20 witness seq(20, _ => 0)
  type Hash = h: seq<Byte> | |h| == 32 witness seq(32, _ => 0)

  function ZeroHash(): Hash { seq(32, _ => 0) }

  /** Go converts a uint64 to an int64 by reinterpreting its top bit as the sign. */
  function SignedView(x: int): int {
    var r := x % TWO_64;
    if r < TWO_63 then r else r - TWO_64
  }

  // ----- Fixed-width numbers -----

  type Uint64 = x: int | 0 <= x < 0x1_0000_0000_0000_0000
  type Int64 = x: int | -0x8000_0000_0000_0000 <= x < 0x8000_0000_0000_0000

  /** The low n bytes of v, most significant first. */
  function BigEndian(v: nat, n: nat): (bytes: seq<Byte>)
    ensures |bytes| == n
    decreases n
  {
    if n == 0 then [] else BigEndian(v / 256, n - 1) + [v % 256]
  }

  function Pow256(n: nat): nat { if n == 0 then 1 else 256 * Pow256(n - 1) }

  lemma {:induction false} BigEndianInjective(v: nat, w: nat, n: nat)
    requires v < Pow256(n) && w < Pow256(n)
    ensures BigEndian(v, n) == BigEndian(w, n) <==> v == w
    decreases n
  {
    if n > 0 {
      var (a, b) := (BigEndian(v, n), BigEndian(w, n));
      assert a[..n - 1] == BigEndian(v / 256, n - 1) && b[..n - 1] == BigEndian(w / 256, n - 1);
      assert a[n - 1] == v % 256 && b[n - 1] == w % 256;
      BigEndianInjective(v / 256, w / 256, n - 1);
    }
  }

  lemma EightBytes()
    ensures Pow256(8) == TWO_64
  {
  }

  /** Equal concatenations with tails of equal length have equal parts. */
  lemma CancelLast<T>(a: seq<T>, x: seq<T>, b: seq<T>, y: seq<T>)
    requires |x| == |y| && a + x == b + y
    ensures a == b && x == y
  {
    assert |a| == |b|;
    assert (a + x)[..|a|] == a && (b + y)[..|a|] == b;
    assert (a + x)[|a|..] == x && (b + y)[|a|..] == y;
  }

  // ----- Quotients -----

  lemma Multiple(d: int, b: int)
    requires d >= 1 && b >= 1
    ensures d * b >= b
  {
  }

  /** The quotient is the only one with a remainder in range. */
  lemma Quotient(a: int, b: int, q: int, r: int)
    requires 0 <= r < b && a == q * b + r
    ensures a / b == q && a % b == r
  {
    var (q', r') := (a / b, a % b);
    assert a == q' * b + r';
    assert (q' - q) * b == r - r';
    if q' > q { Multiple(q' - q, b); }
    if q > q' { Multiple(q - q', b); }
  }

  lemma DivideInTwo(a: nat, b: nat, c: nat)
    requires b > 0 && c > 0
    ensures b * c > 0 && a / b / c == a / (b * c)
  {
    var (q, r) := (a / b, a % b);
    var (q', r') := (q / c, q % c);
    Multiple(c, b);
    assert a == q * b + r && q == q' * c + r';
    assert (q' * c + r') * b == q' * (b * c) + r' * b;
    assert r' * b <= (c - 1) * b == b * c - b by { if r' < c - 1 { Multiple(c - 1 - r', b); } }
    assert r' * b >= 0;
    Quotient(a, b * c, q', r' * b + r);
  }
}
