/**
 Double-precision rounding, as IEEE 754 defines it: to nearest, ties to even,
 for numbers from zero up to 2^65. `AboveTwoThirds` says in integers when a
 rounded quotient of rounded words exceeds the rounded constant two thirds.
 */
module Float64 {

  function Pow2(n: nat): (p: nat)
    ensures p > 0
  {
    if n == 0 then 1 else 2 * Pow2(n - 1)
  }

  const TWO_52: real := 4503599627370496.0
  const TWO_53: real := 9007199254740992.0
  const TWO_54: real := 18014398509481984.0
  const LIMIT: real := 36893488147419103232.0  // 2^65

  /** The spacing 2^(12 - k) of the doubles, from 2^12 below the limit down to 2^-1074. */
  function Spacing(k: nat): (u: real)
    ensures u > 0.0
  {
    if k <= 12 then Pow2(12 - k) as real else 1.0 / Pow2(k - 12) as real
  }

  const SMALLEST: nat := 1086

  /** The coarsest spacing, from k on, that leaves x 53 bits. */
  function Exponent(x: real, k: nat): nat
    requires k <= SMALLEST
    decreases SMALLEST - k
  {
    if k == SMALLEST || x >= TWO_52 * Spacing(k) then k else Exponent(x, k + 1)
  }

  /** To nearest, ties to even. */
  function Nearest(y: real): int {
    var rest := y - y.Floor as real;
    if rest < 0.5 || (rest == 0.5 && y.Floor % 2 == 0) then y.Floor else y.Floor + 1
  }

  predicate InRange(x: real) { 0.0 <= x < LIMIT }

  // Products and quotients of two variables, as black boxes for the lemmas about rounding.

  function Times(x: real, u: real): real { x * u }

  function Over(x: real, u: real): real
    requires u > 0.0
  {
    x / u
  }

  /** The multiple of u nearest to x. */
  function Snap(x: real, u: real): real
    requires u > 0.0
  {
    Times(Nearest(Over(x, u)) as real, u)
  }

  /** The double nearest to x. */
  function Round(x: real): real
    requires InRange(x)
  {
    Snap(x, Spacing(Exponent(x, 0)))
  }

  // ----- Rounding to an integer -----

  lemma NearestIsNear(y: real)
    ensures -0.5 <= Nearest(y) as real - y <= 0.5
    ensures y == y.Floor as real ==> Nearest(y) == y.Floor
  {
  }

  lemma NearestMonotone(y: real, z: real)
    requires y <= z
    ensures Nearest(y) <= Nearest(z)
  {
  }

  lemma NearestOfInt(n: int)
    ensures Nearest(n as real) == n
  {
  }

  // ----- Spacings -----

  lemma HalfSpacing(k: nat)
    ensures Spacing(k) == 2.0 * Spacing(k + 1)
  {
    if k >= 12 {
      var p := Pow2(k - 12) as real;
      assert Pow2(k - 11) == 2 * Pow2(k - 12);
      assert 1.0 / p == 2.0 * (1.0 / (2.0 * p));
    }
  }

  lemma {:induction false} FinerSpacing(k: nat, n: nat)
    requires k <= n
    ensures Spacing(n) <= Spacing(k)
    ensures k < n ==> 2.0 * Spacing(n) <= Spacing(k)
    decreases n - k
  {
    if k < n {
      HalfSpacing(k);
      FinerSpacing(k + 1, n);
    }
  }

  /** Where the search stops: x has at most 53 bits, and exactly 53 unless it is tiny. */
  lemma {:induction false} ExponentFits(x: real, k: nat, n: nat)
    requires k <= n <= SMALLEST && 0.0 <= x < TWO_53 * Spacing(k)
    ensures var e := Exponent(x, k);
            k <= e <= SMALLEST && x < TWO_53 * Spacing(e) && (e == SMALLEST || x >= TWO_52 * Spacing(e))
    ensures x >= TWO_52 * Spacing(n) ==> Exponent(x, k) <= n && x >= TWO_52 * Spacing(Exponent(x, k))
    decreases SMALLEST - k
  {
    hide Spacing;
    HalfSpacing(k);
    if !(k == SMALLEST || x >= TWO_52 * Spacing(k)) {
      if k < n { ExponentFits(x, k + 1, n); } else { ExponentFits(x, k + 1, k + 1); }
    }
  }

  lemma TopSpacing()
    ensures Spacing(0) == 4096.0 && TWO_53 * Spacing(0) == LIMIT
    ensures Spacing(12) == 1.0
  {
    assert Pow2(6) == 64 && Pow2(12) == 64 * Pow2(6) by { assert Pow2(8) == 4 * Pow2(6) && Pow2(10) == 4 * Pow2(8) && Pow2(12) == 4 * Pow2(10); }
  }

  /** The exponent is the one whose range x lies in. */
  lemma ExponentIs(x: real, k: nat)
    requires InRange(x) && k <= SMALLEST && TWO_52 * Spacing(k) <= x < TWO_53 * Spacing(k)
    ensures Exponent(x, 0) == k
  {
    TopSpacing();
    ExponentFits(x, 0, k);
    var e := Exponent(x, 0);
    hide Spacing, Exponent;
    if e < k { FinerSpacing(e, k); }
  }

  // ----- Rounding to multiples of a spacing -----

  lemma TimesMonotone(m: real, n: real, u: real)
    requires u > 0.0 && m <= n
    ensures Times(m, u) <= Times(n, u)
  {
  }

  lemma OverMonotone(x: real, y: real, u: real)
    requires u > 0.0 && x <= y
    ensures Over(x, u) <= Over(y, u)
  {
    assert x == x / u * u && y == y / u * u;
  }

  lemma OverOfTimes(c: real, u: real)
    requires u > 0.0
    ensures Over(Times(c, u), u) == c
  {
  }

  /** A multiple snaps to itself, so a number between two multiples stays between them. */
  lemma SnapBounds(x: real, u: real, lo: int, hi: int)
    requires u > 0.0 && Times(lo as real, u) <= x <= Times(hi as real, u)
    ensures Times(lo as real, u) <= Snap(x, u) <= Times(hi as real, u)
  {
    hide Times, Over, Nearest;
    OverMonotone(Times(lo as real, u), x, u);
    OverMonotone(x, Times(hi as real, u), u);
    OverOfTimes(lo as real, u);
    OverOfTimes(hi as real, u);
    NearestMonotone(lo as real, Over(x, u));
    NearestMonotone(Over(x, u), hi as real);
    NearestOfInt(lo);
    NearestOfInt(hi);
    TimesMonotone(lo as real, Nearest(Over(x, u)) as real, u);
    TimesMonotone(Nearest(Over(x, u)) as real, hi as real, u);
  }

  lemma SnapMonotone(x: real, y: real, u: real)
    requires u > 0.0 && x <= y
    ensures Snap(x, u) <= Snap(y, u)
  {
    hide Times, Over, Nearest;
    OverMonotone(x, y, u);
    NearestMonotone(Over(x, u), Over(y, u));
    TimesMonotone(Nearest(Over(x, u)) as real, Nearest(Over(y, u)) as real, u);
  }

  /** Snapping moves a number by at most half the spacing. */
  lemma SnapError(x: real, u: real)
    requires u > 0.0
    ensures -u <= 2.0 * (Snap(x, u) - x) <= u
  {
    hide Nearest;
    NearestIsNear(Over(x, u));
    ErrorOf(x, u, Nearest(Over(x, u)) as real);
  }

  lemma ErrorOf(x: real, u: real, n: real)
    requires u > 0.0 && -0.5 <= n - Over(x, u) <= 0.5
    ensures -u <= 2.0 * (Times(n, u) - x) <= u
  {
    var d := n - x / u;
    assert x == x / u * u;
    assert n * u - x == d * u;
    assert -0.5 * u <= d * u <= 0.5 * u;
  }

  // ----- Rounding is monotone and nearly exact -----

  /** What the search for the spacing guarantees. */
  lemma Fits(x: real)
    requires InRange(x)
    ensures var e := Exponent(x, 0);
            e <= SMALLEST && x < TWO_53 * Spacing(e) && (e == SMALLEST || x >= TWO_52 * Spacing(e))
    ensures x >= 1.0 ==> x >= TWO_52 * Spacing(Exponent(x, 0))
  {
    TopSpacing();
    SmallSpacing();
    hide Spacing, Exponent;
    ExponentFits(x, 0, 64);
  }

  lemma SmallSpacing()
    ensures TWO_52 * Spacing(64) <= 1.0
  {
    LargePowers();
    hide Pow2;
  }

  lemma LargePowers()
    ensures Pow2(52) == 4503599627370496 && Pow2(53) == 9007199254740992
  {
    assert Pow2(13) == 8192;
    assert Pow2(53) == 2 * Pow2(52);
    hide Pow2;
    PowSum(13, 13);
    PowSum(26, 26);
  }

  lemma {:induction false} PowSum(m: nat, n: nat)
    ensures Pow2(m + n) == Pow2(m) * Pow2(n)
  {
    if m > 0 { PowSum(m - 1, n); }
  }

  lemma TimesIs(c: real, u: real)
    ensures Times(c, u) == c * u
  {
  }

  lemma RoundMonotone(x: real, y: real)
    requires InRange(x) && InRange(y) && x <= y
    ensures Round(x) <= Round(y)
  {
    var (e, f) := (Exponent(x, 0), Exponent(y, 0));
    hide Spacing, Exponent, Snap, Times;
    Fits(x);
    Fits(y);
    if e == f {
      SnapMonotone(x, y, Spacing(e));
    } else {
      assert f < e by {
        TopSpacing();
        ExponentFits(y, 0, e);
      }
      FinerSpacing(f, e);
      TimesIs(0.0, Spacing(e));
      TimesIs(TWO_53, Spacing(e));
      TimesIs(TWO_52, Spacing(f));
      TimesIs(TWO_53, Spacing(f));
      SnapBounds(x, Spacing(e), 0, 9007199254740992);
      SnapBounds(y, Spacing(f), 4503599627370496, 9007199254740992);
    }
  }

  /** A number of at least 1 is rounded by at most one part in 2^53. */
  lemma RoundError(x: real)
    requires InRange(x) && x >= 1.0
    ensures -x <= TWO_53 * (Round(x) - x) <= x
  {
    Fits(x);
    hide Spacing, Exponent, Snap;
    SnapError(x, Spacing(Exponent(x, 0)));
  }

  /** Integers up to 2^53 are doubles. */
  lemma RoundExact(v: nat)
    requires v <= 9007199254740992
    ensures InRange(v as real) && Round(v as real) == v as real
  {
    var x := v as real;
    var e := Exponent(x, 0);
    Fits(x);
    hide Exponent, Snap;
    TopSpacing();
    if v == 0 {
      TimesIs(0.0, Spacing(e));
      hide Spacing, Times;
      SnapBounds(x, Spacing(e), 0, 0);
    } else if v == 9007199254740992 {
      HalfSpacing(11);
      ExponentIs(x, 11);
      hide Spacing, Times;
      TimesIs(TWO_52, Spacing(11));
      SnapBounds(x, Spacing(11), 4503599627370496, 4503599627370496);
    } else {
      assert e >= 12 by {
        hide Spacing;
        if e < 12 { FinerSpacing(e, 12); }
      }
      var n := v * Pow2(e - 12);
      WholeMultiple(v, Pow2(e - 12));
      assert Times(n as real, Spacing(e)) == x;
      hide Spacing, Times;
      SnapBounds(x, Spacing(e), n, n);
    }
  }

  lemma WholeMultiple(v: nat, p: nat)
    requires p > 0
    ensures Times((v * p) as real, 1.0 / p as real) == v as real
  {
    assert (v * p) as real == v as real * p as real;
  }

  // ----- The constant two thirds -----

  /** Between a half and 1 the doubles are the multiples of 2^-53. */
  lemma UpperHalf(q: real)
    requires 0.5 <= q < 1.0
    ensures Round(q) == Nearest(TWO_53 * q) as real / TWO_53
  {
    UnitBelowOne();
    hide Spacing, Exponent, Nearest, Snap;
    ExponentIs(q, 65);
    SnapUnit(q);
  }

  lemma UnitBelowOne()
    ensures Spacing(65) == 1.0 / TWO_53
  {
    LargePowers();
    hide Pow2;
  }

  lemma SnapUnit(q: real)
    ensures Snap(q, 1.0 / TWO_53) == Nearest(TWO_53 * q) as real / TWO_53
  {
    hide Nearest;
    assert Over(q, 1.0 / TWO_53) == TWO_53 * q;
  }

  /** The double the source's constant denotes. */
  function Threshold(): real { Round(2.0 / 3.0) }

  lemma ThresholdIs()
    ensures Threshold() == 6004799503160661.0 / TWO_53
  {
    hide Round, Nearest;
    UpperHalf(2.0 / 3.0);
    var y := TWO_53 * (2.0 / 3.0);
    assert 6004799503160661.0 <= y < 6004799503160661.5;
    NearestBelow(y, 6004799503160661);
  }

  lemma NearestBelow(y: real, n: int)
    requires n as real <= y < n as real + 0.5
    ensures Nearest(y) == n
  {
  }

  /** A quotient rounds above the constant exactly from the middle between it and the next double on. */
  lemma AboveThreshold(q: real)
    requires InRange(q)
    ensures Round(q) > Threshold() <==> TWO_54 * q >= 12009599006321323.0
  {
    ThresholdIs();
    hide Threshold, Round, Nearest;
    if q >= 1.0 {
      RoundExact(1);
      RoundMonotone(1.0, q);
    } else if q < 0.5 {
      UpperHalf(0.5);
      NearestOfInt(4503599627370496);
      RoundMonotone(q, 0.5);
    } else {
      UpperHalf(q);
      NearestFrom(TWO_53 * q);
    }
  }

  lemma NearestFrom(y: real)
    ensures Nearest(y) > 6004799503160661 <==> 2.0 * y >= 12009599006321323.0
  {
  }

  // ----- The comparison of two words -----

  type Word64 = v: int | 0 <= v < 0x1_0000_0000_0000_0000

  lemma WordRounds(v: Word64)
    ensures InRange(v as real) && 0.0 <= Round(v as real) < LIMIT
    ensures v >= 1 ==> Round(v as real) >= 1.0
  {
    hide Round;
    if v == 0 {
      RoundExact(0);
    } else {
      RoundExact(1);
      AtLeastOne(v as real);
    }
  }

  lemma AtLeastOne(x: real)
    requires 1.0 <= x <= 18446744073709551616.0
    ensures 1.0 <= Round(x) < LIMIT
  {
    hide Round;
    RoundExact(1);
    RoundMonotone(1.0, x);
    RoundError(x);
  }

  lemma QuotientInRange(a: real, b: real)
    requires 0.0 <= a < LIMIT && b >= 1.0
    ensures InRange(Over(a, b))
  {
    assert a == a / b * b;
  }

  /** A word as a double. */
  function Double(v: Word64): (a: real)
    ensures InRange(v as real) && a == Round(v as real)
    ensures 0.0 <= a < LIMIT && (v >= 1 ==> a >= 1.0)
  {
    WordRounds(v);
    Round(v as real)
  }

  /** What the program compares: the rounded quotient of two rounded words, and the rounded constant. */
  predicate ExceedsTwoThirds(v: Word64, t: Word64)
    requires t > 0
  {
    QuotientInRange(Double(v), Double(t));
    Round(Over(Double(v), Double(t))) > Threshold()
  }

  lemma QuotientAbove(a: real, b: real)
    requires b > 0.0
    ensures TWO_54 * Over(a, b) >= 12009599006321323.0 <==> TWO_54 * (3.0 * a - 2.0 * b) >= b
  {
    var q := a / b;
    assert a == q * b;
    var d := TWO_54 * q - 12009599006321323.0;
    assert d * b == TWO_54 * a - 12009599006321323.0 * b;
    if d >= 0.0 { assert d * b >= 0.0; } else { assert d * b < 0.0; }
  }

  /** The comparison in terms of the rounded words alone. */
  lemma AboveTwoThirds(v: Word64, t: Word64)
    requires t > 0
    ensures ExceedsTwoThirds(v, t) <==> TWO_54 * (3.0 * Double(v) - 2.0 * Double(t)) >= Double(t)
  {
    QuotientInRange(Double(v), Double(t));
    hide Round, Over, Threshold, Double;
    AboveThreshold(Over(Double(v), Double(t)));
    QuotientAbove(Double(v), Double(t));
  }

  /** More votes never lose. */
  lemma ExceedsMonotone(v: Word64, w: Word64, t: Word64)
    requires t > 0 && v <= w && ExceedsTwoThirds(v, t)
    ensures ExceedsTwoThirds(w, t)
  {
    AboveTwoThirds(v, t);
    AboveTwoThirds(w, t);
    hide Round, ExceedsTwoThirds;
    RoundMonotone(v as real, w as real);
  }

  /** Up to a total of 2^53 the comparison is exact. */
  lemma ExactComparison(v: Word64, t: Word64)
    requires v <= t && 0 < t <= 9007199254740992
    ensures ExceedsTwoThirds(v, t) <==> 3 * v > 2 * t
  {
    AboveTwoThirds(v, t);
    RoundExact(v);
    RoundExact(t);
    hide Round, ExceedsTwoThirds;
    var d := 3 * v - 2 * t;
    assert 3.0 * v as real - 2.0 * t as real == d as real;
  }

  /** For any total it is right unless the votes are within one part in 2^50 of two thirds. */
  lemma ComparisonMargin(v: Word64, t: Word64)
    requires v <= t && t > 0
    ensures ExceedsTwoThirds(v, t) ==> 0x8_0000_0000_0000 * (2 * t - 3 * v) <= t
    ensures 0x4_0000_0000_0000 * (3 * v - 2 * t) >= t ==> ExceedsTwoThirds(v, t)
  {
    AboveTwoThirds(v, t);
    DoubleError(v);
    DoubleError(t);
    hide ExceedsTwoThirds, Double;
    Margin(v as real, t as real, Double(v), Double(t));
    var d := 3 * v - 2 * t;
    assert d as real == 3.0 * v as real - 2.0 * t as real;
  }

  lemma DoubleError(v: Word64)
    ensures -(v as real) <= TWO_53 * (Double(v) - v as real) <= v as real
  {
    hide Round;
    if v == 0 { RoundExact(0); } else { RoundError(v as real); }
  }

  lemma Margin(v: real, t: real, a: real, b: real)
    requires 0.0 <= v <= t && t >= 1.0
    requires -v <= TWO_53 * (a - v) <= v && -t <= TWO_53 * (b - t) <= t
    ensures TWO_54 * (3.0 * a - 2.0 * b) >= b ==> 2251799813685248.0 * (2.0 * t - 3.0 * v) <= t
    ensures 1125899906842624.0 * (3.0 * v - 2.0 * t) >= t ==> TWO_54 * (3.0 * a - 2.0 * b) >= b
  {
  }

  // ----- Where rounding decides otherwise -----

  /** The double of a word less than half a spacing from a multiple of it. */
  lemma DoubleIs(v: Word64, k: nat, u: real, n: int)
    requires k <= SMALLEST && u == Spacing(k) && TWO_52 * u <= v as real < TWO_53 * u
    requires -u < 2.0 * (v as real - Times(n as real, u)) < u
    ensures Double(v) == Times(n as real, u)
  {
    hide Spacing, Exponent, Nearest;
    assert InRange(v as real);
    ExponentIs(v as real, k);
    NearestOfNear(v as real, u, n);
  }

  lemma NearestOfNear(x: real, u: real, n: int)
    requires u > 0.0 && -u < 2.0 * (x - Times(n as real, u)) < u
    ensures Nearest(Over(x, u)) == n
  {
    NearQuotient(x, u, n as real);
    hide Over, Times;
  }

  lemma NearQuotient(x: real, u: real, n: real)
    requires u > 0.0 && -u < 2.0 * (x - Times(n, u)) < u
    ensures -0.5 < Over(x, u) - n < 0.5
  {
    var d := x / u - n;
    assert d * u == x - n * u;
    assert (d >= 0.5 ==> d * u >= 0.5 * u) && (d <= -0.5 ==> d * u <= -0.5 * u);
  }

  lemma CoarseSpacings()
    ensures Spacing(1) == 2048.0 && Spacing(2) == 1024.0 && Spacing(3) == 512.0
  {
    TopSpacing();
    HalfSpacing(0);
    HalfSpacing(1);
    HalfSpacing(2);
  }

  /** Votes above two thirds that the program refuses, and votes below that it accepts. */
  lemma RoundingDecides()
    ensures var (v, t) := (0x2000_0000_0000_0001, 0x3000_0000_0000_0000); 3 * v > 2 * t && !ExceedsTwoThirds(v, t)
    ensures var (v, t) := (6159922323101516289, 9239883484652274687); 3 * v < 2 * t && ExceedsTwoThirds(v, t)
  {
    CoarseSpacings();
    hide Spacing, Double, ExceedsTwoThirds;
    DoubleIs(0x2000_0000_0000_0001, 3, 512.0, 4503599627370496);
    DoubleIs(0x3000_0000_0000_0000, 3, 512.0, 6755399441055744);
    AboveTwoThirds(0x2000_0000_0000_0001, 0x3000_0000_0000_0000);
    DoubleIs(6159922323101516289, 2, 1024.0, 6015549143653825);
    DoubleIs(9239883484652274687, 1, 2048.0, 4511661857740368);
    AboveTwoThirds(6159922323101516289, 9239883484652274687);
  }
}
