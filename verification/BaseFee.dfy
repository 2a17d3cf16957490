/**
 The base-fee rule. The program computes the distance from the target in signed
 64-bit words; `WordsAreExact` says, for all inputs, when that is the rule it is
 meant to be, and `StaysPositive` when the fee stays at 1 or more. The remaining
 theorems are about the rule, and then about runs of the program.
 */
module BaseFee {
  import opened Prelude

  function Abs(x: int): nat { if x < 0 then -x else x }

  // ----- The program -----

  /** None is a panic: the target is zero and the block is not. */
  method AdjustBaseFee(currentBaseFee: int, gasUsed: Uint64, gasTarget: Uint64) returns (r: Option<int>)
    ensures r == Adjusted(currentBaseFee, gasUsed, gasTarget)
  {
    if gasUsed == gasTarget { return Some(currentBaseFee); }
    var diff := SignedView(SignedView(gasUsed) - SignedView(gasTarget));
    var absDiff := diff;
    if absDiff < 0 { absDiff := SignedView(-absDiff); }
    var delta := currentBaseFee * absDiff;
    if SignedView(gasTarget) == 0 { return None; }
    delta := delta / SignedView(gasTarget);
    delta := delta / 8;
    if delta == 0 { delta := 1; }
    var result := currentBaseFee;
    if diff > 0 {
      result := result + delta;
    } else {
      result := result - delta;
      if result <= 0 { result := 1; }
    }
    return Some(result);
  }

  /** The same, as a function of the words. */
  function Adjusted(fee: int, used: Uint64, target: Uint64): Option<int> {
    if used == target then Some(fee)
    else if target == 0 then None
    else
      var diff := SignedView(SignedView(used) - SignedView(target));
      var dist := if diff < 0 then SignedView(-diff) else diff;
      var share := fee * dist / SignedView(target) / 8;
      var delta := if share == 0 then 1 else share;
      Some(if diff > 0 then fee + delta else if fee - delta <= 0 then 1 else fee - delta)
  }

  // ----- The rule -----

  /** An eighth of the fee, in proportion to the distance from the target, but at least 1. */
  function Delta(fee: nat, dist: nat, target: nat): (d: nat)
    requires target > 0
    ensures d >= 1
  {
    var share := fee * dist / target / 8;
    if share == 0 then 1 else share
  }

  function Rule(fee: nat, used: nat, target: nat): (r: nat)
    requires target > 0 && fee >= 1
    ensures r >= 1
  {
    if used == target then fee
    else if used > target then fee + Delta(fee, used - target, target)
    else
      var d := Delta(fee, target - used, target);
      if fee <= d then 1 else fee - d
  }

  /** A fee moved by a step, but not below 1. */
  function Stepped(fee: int, share: int, up: bool): int {
    var delta := if share == 0 then 1 else share;
    if up then fee + delta else if fee - delta <= 0 then 1 else fee - delta
  }

  lemma RuleStepped(fee: nat, used: nat, target: nat)
    requires fee >= 1 && target > 0 && used != target
    ensures Rule(fee, used, target) == Stepped(fee, fee * Abs(used - target) / target / 8, used > target)
    ensures fee * Abs(used - target) / target / 8 >= 0
  {
  }

  /**
   The rule in integers: the step is the largest s for which 8 * target * s is at
   most fee * distance, but at least 1, and the fee stays at 1 or more.
   */
  lemma RuleIs(fee: nat, used: nat, target: nat) returns (s: nat)
    requires fee >= 1 && target > 0
    ensures var dist := if used > target then used - target else target - used;
            8 * target * s <= fee * dist < 8 * target * (s + 1)
    ensures var step := if s == 0 then 1 else s;
            Rule(fee, used, target) == if used == target then fee
                                       else if used > target then fee + step
                                       else if fee > step then fee - step else 1
  {
    var dist := if used > target then used - target else target - used;
    s := Share(fee * dist, target);
  }

  lemma Share(a: nat, b: nat) returns (s: nat)
    requires b > 0
    ensures s == a / b / 8 && 8 * b * s <= a < 8 * b * (s + 1)
  {
    DivideTwice(a, b);
    assert a == (a / (8 * b)) * (8 * b) + a % (8 * b);
    QuotientNatural(a, 8 * b);
    s := a / (8 * b);
    assert 8 * b * (s + 1) == 8 * b * s + 8 * b;
  }

  lemma WordDifference(used: Uint64, target: Uint64)
    requires target < TWO_63
    ensures SignedView(target) == target
    ensures SignedView(SignedView(used) - SignedView(target)) ==
      if used - target < TWO_63 then used - target else used - target - TWO_64
  {
  }

  lemma DivideTwice(a: int, b: nat)
    requires b > 0
    ensures a / b / 8 == a / (8 * b)
  {
    var (q, r) := (a / b, a % b);
    assert a == q * b + r == (8 * (q / 8) + q % 8) * b + r == (q / 8) * (8 * b) + ((q % 8) * b + r);
    assert 0 <= (q % 8) * b <= 7 * b;
    Quotient(a, 8 * b, q / 8, (q % 8) * b + r);
  }

  /** Rounding the negative the other way. */
  lemma NegativeQuotient(a: int, b: int)
    requires b > 0
    ensures (-a) / b == if a % b == 0 then -(a / b) else -(a / b) - 1
  {
    assert -a == (-(a / b)) * b - a % b;
    if a % b == 0 {
      Quotient(-a, b, -(a / b), 0);
    } else {
      Quotient(-a, b, -(a / b) - 1, b - a % b);
    }
  }

  /** The one excess that has no positive counterpart in a signed word still gives the rule if nothing is rounded. */
  predicate LuckyExcess(fee: nat, used: Uint64, target: Uint64)
    requires target > 0
  {
    used - target == TWO_63 && (fee * TWO_63 < 8 * target || fee * TWO_63 % (8 * target) == 0)
  }

  /** A target below 2^63: the program follows the rule exactly when the excess over it fits in a signed word. */
  lemma SmallTarget(fee: nat, used: Uint64, target: Uint64)
    requires fee >= 1 && 0 < target < TWO_63
    ensures Adjusted(fee, used, target) == Some(Rule(fee, used, target))
       <==> used - target < TWO_63 || LuckyExcess(fee, used, target)
  {
    WordDifference(used, target);
    hide SignedView;
    if used - target < TWO_63 {
      SmallSigned(used - target);
    } else if used - target == TWO_63 {
      EdgeExcess(fee, used, target);
    } else {
      SmallSigned(used - target - TWO_64);
      ShareIsNatural(fee, TWO_64 - (used - target), target);
      assert Rule(fee, used, target) > fee;
    }
  }

  lemma SmallSigned(diff: int)
    requires -TWO_63 < diff < TWO_63
    ensures SignedView(-diff) == -diff
  {
  }

  lemma ShareIsNatural(fee: nat, dist: nat, target: nat)
    requires target > 0
    ensures fee * dist / target / 8 >= 0
  {
  }

  lemma ExcessWords(fee: nat, used: Uint64, target: Uint64)
    requires 0 < target < TWO_63 && used - target == TWO_63
    ensures Adjusted(fee, used, target) == Some(Stepped(fee, fee * (-TWO_63) / target / 8, false))
  {
    WordDifference(used, target);
    assert SignedView(TWO_63) == -TWO_63;
    hide SignedView;
  }

  lemma EdgeExcess(fee: nat, used: Uint64, target: Uint64)
    requires fee >= 1 && 0 < target < TWO_63 && used - target == TWO_63
    ensures Adjusted(fee, used, target) == Some(Rule(fee, used, target)) <==> LuckyExcess(fee, used, target)
  {
    ExcessWords(fee, used, target);
    RuleStepped(fee, used, target);
    hide Adjusted, Rule;
    EdgeShares(fee, target);
  }

  /** The share of the edge excess, and what the program makes of it. */
  lemma EdgeShares(fee: nat, target: nat)
    requires target > 0
    ensures var (down, up) := (fee * TWO_63 / target / 8, -(fee * (-TWO_63) / target / 8));
            up == (if fee * TWO_63 % (8 * target) == 0 then down else down + 1)
            && (down == 0 <==> fee * TWO_63 < 8 * target)
  {
    var a := fee * TWO_63;
    assert fee * (-TWO_63) == -a;
    DivideTwice(-a, target);
    DivideTwice(a, target);
    NegativeQuotient(a, 8 * target);
    var b := 8 * target;
    assert a == (a / b) * b + a % b;
    if a / b >= 1 { Multiple(a / b, b); }
  }

  lemma NegativeDivisor(a: int, m: int)
    requires a >= 0 && m > 0
    ensures a / -m == -(a / m)
    ensures a < m ==> a / -m == 0
    ensures a >= m ==> a / -m < 0
  {
  }

  // ----- Targets that do not fit in a signed word -----

  lemma SmallShare(p: nat, target: nat)
    requires target > 0
    ensures p < target ==> p / target / 8 == 0
  {
  }

  /** Such a target reads as the negative of its distance to 2^64. */
  lemma HugeWords(used: Uint64, target: Uint64)
    requires target >= TWO_63
    ensures SignedView(target) == -(TWO_64 - target)
    ensures SignedView(SignedView(used) - SignedView(target)) ==
      if used - target >= -TWO_63 then used - target else used - target + TWO_64
  {
  }

  lemma AdjustedNear(fee: nat, used: Uint64, target: Uint64)
    requires target >= TWO_63 && used != target && used - target > -TWO_63
    ensures Adjusted(fee, used, target)
         == Some(Stepped(fee, fee * Abs(used - target) / -(TWO_64 - target) / 8, used > target))
  {
    HugeWords(used, target);
    SmallSigned(used - target);
    hide SignedView;
  }

  /** As long as the distance fits in a signed word, the rule survives exactly while the step is 1. */
  lemma NearTarget(fee: nat, used: Uint64, target: Uint64)
    requires fee >= 1 && target >= TWO_63 && used != target && used - target > -TWO_63
    ensures Adjusted(fee, used, target) == Some(Rule(fee, used, target))
       <==> fee * Abs(used - target) < TWO_64 - target
  {
    var (p, m) := (fee * Abs(used - target), TWO_64 - target);
    AdjustedNear(fee, used, target);
    RuleStepped(fee, used, target);
    hide Adjusted, Rule, Abs;
    NegativeDivisor(p, m);
    SmallShare(p, target);
  }

  /** What the program subtracts when the difference itself wraps. */
  function Drop(fee: nat, used: nat, target: nat): int
    requires target < TWO_64
  {
    (fee + fee * used / (TWO_64 - target) + 7) / 8
  }

  lemma WholePart(a: int, n: int, m: int)
    requires m > 0
    ensures (a + n * m) / m == n + a / m
  {
    Quotient(a + n * m, m, n + a / m, a % m);
  }

  lemma FarWords(fee: nat, used: Uint64, target: Uint64)
    requires target >= TWO_63 && used - target < -TWO_63
    ensures var m := TWO_64 - target;
            var share := fee * (used + m) / -m / 8;
            Adjusted(fee, used, target) == Some(fee + if share == 0 then 1 else share)
  {
    HugeWords(used, target);
    hide SignedView;
  }

  lemma FarShare(fee: int, used: int, m: int)
    requires fee >= 0 && used >= 0 && m > 0
    ensures fee * (used + m) / -m / 8 == -((fee + fee * used / m + 7) / 8)
  {
    assert fee * (used + m) == fee * used + fee * m;
    NegativeDivisor(fee * (used + m), m);
    WholePart(fee * used, fee, m);
    RoundedDown(fee + fee * used / m);
  }

  lemma RoundedDown(q: int)
    ensures -q / 8 == -((q + 7) / 8)
  {
  }

  /** More than 2^63 below the target the program takes the other branch, adds a negative step, and has no floor. */
  lemma AdjustedFar(fee: nat, used: Uint64, target: Uint64)
    requires fee >= 1 && target >= TWO_63 && used - target < -TWO_63
    ensures Adjusted(fee, used, target) == Some(fee - Drop(fee, used, target))
  {
    var m := TWO_64 - target;
    FarWords(fee, used, target);
    hide Adjusted;
    FarShare(fee, used, m);
    QuotientNatural(fee * used, m);
    assert Drop(fee, used, target) >= 1;
  }

  lemma QuotientNatural(a: nat, b: nat)
    requires b > 0
    ensures a / b >= 0
  {
  }

  /** Where that happens to be the rule: the step is 1, or the block is empty and nothing is rounded. */
  predicate LuckyFar(fee: nat, used: nat, target: nat)
    requires target < TWO_64
  {
    fee >= 2 && (fee + fee * used / (TWO_64 - target) <= 8 || (used == 0 && fee % 8 == 0))
  }

  /** The rule's quotient is the fee for an empty block and less for any other. */
  lemma RuleShare(fee: nat, used: nat, target: nat)
    requires fee >= 1 && used < target
    ensures var y := fee * (target - used) / target; 0 <= y <= fee && (used == 0 <==> y == fee)
  {
    var a := fee * used;
    assert fee * (target - used) == -a + fee * target;
    WholePart(-a, fee, target);
    if used > 0 { Multiple(fee, used); }
    ScaledBelow(used, target, fee);
    assert 0 <= a <= fee * target && (used == 0 <==> a == 0);
    BelowZero(a, target, fee);
  }

  lemma BelowZero(a: int, b: int, n: int)
    requires a >= 0 && b > 0 && a <= n * b
    ensures -n <= -a / b <= 0 && (a == 0 <==> -a / b == 0)
  {
    NegativeQuotient(a, b);
    var q := -a / b;
    assert -a == q * b + -a % b;
    if q < -n { Multiple(-n - q, b); }
  }

  lemma FarTarget(fee: nat, used: Uint64, target: Uint64)
    requires fee >= 1 && target >= TWO_63 && used - target < -TWO_63
    ensures Adjusted(fee, used, target) == Some(Rule(fee, used, target)) <==> LuckyFar(fee, used, target)
  {
    AdjustedFar(fee, used, target);
    RuleStepped(fee, used, target);
    RuleShare(fee, used, target);
    QuotientNatural(fee * used, TWO_64 - target);
    hide Adjusted, Rule;
    if used == 0 { QuotientOfZero(fee, TWO_64 - target); }
    DropIsStep(fee, fee + fee * used / (TWO_64 - target), fee * (target - used) / target);
  }

  lemma DropIsStep(fee: nat, q: int, y: int)
    requires fee >= 1 && q >= fee && 0 <= y <= fee && (y == fee ==> q == fee)
    ensures fee - (q + 7) / 8 == Stepped(fee, y / 8, false) <==> fee >= 2 && (q <= 8 || (y == fee && fee % 8 == 0))
  {
  }

  lemma QuotientOfZero(fee: nat, m: nat)
    requires m > 0
    ensures fee * 0 / m == 0
  {
    Quotient(0, m, 0, 0);
  }

  // ----- Exactly 2^63 below such a target -----

  /** The quotient rounded up, as the division of two negatives gives it. */
  function CeilDiv(a: int, m: int): int
    requires m > 0
  {
    -a / -m
  }

  lemma CeilBounds(a: int, m: int, n: int)
    requires m > 0
    ensures CeilDiv(a, m) <= n <==> a <= n * m
  {
    var e := CeilDiv(a, m);
    assert -a == e * -m + -a % -m;
    if e <= n { assert (n - e) * m >= 0; } else { Multiple(e - n, m); }
  }

  lemma FloorBounds(a: nat, t: nat, n: int)
    requires t > 0
    ensures a / t >= n <==> a >= n * t
  {
    var f := a / t;
    assert a == f * t + a % t;
    if f >= n { assert (f - n) * t >= 0; } else { Multiple(n - f, t); }
  }

  lemma AdjustedEdge(fee: nat, used: Uint64, target: Uint64)
    requires target >= TWO_63 && used - target == -TWO_63
    ensures Adjusted(fee, used, target) == Some(Stepped(fee, CeilDiv(fee * TWO_63, TWO_64 - target) / 8, false))
  {
    HugeWords(used, target);
    assert SignedView(TWO_63) == -TWO_63;
    hide SignedView;
    assert fee * -TWO_63 == -(fee * TWO_63);
  }

  /** The step is 1 on both sides, or the two quotients lie in the same eighth as the fee. */
  predicate LuckyEdge(fee: nat, target: nat)
    requires target < TWO_64
  {
    var (a, m, k) := (fee * TWO_63, TWO_64 - target, 8 * (fee / 8));
    fee <= 2 || a <= 15 * m || k * target <= a <= (k + 7) * m
  }

  lemma EdgeTarget(fee: nat, used: Uint64, target: Uint64)
    requires fee >= 1 && target >= TWO_63 && used - target == -TWO_63
    ensures Adjusted(fee, used, target) == Some(Rule(fee, used, target)) <==> LuckyEdge(fee, target)
  {
    AdjustedEdge(fee, used, target);
    RuleStepped(fee, used, target);
    hide Adjusted, Rule, CeilDiv;
    EdgeQuotients(fee, target, 8 * (fee / 8));
    SameStep(fee, CeilDiv(fee * TWO_63, TWO_64 - target), fee * TWO_63 / target);
  }

  /** The program's quotient is at least the fee, the rule's at most. */
  lemma EdgeQuotients(fee: nat, target: nat, k: nat)
    requires fee >= 1 && TWO_63 <= target < TWO_64
    ensures var (a, m) := (fee * TWO_63, TWO_64 - target);
            var (e, f) := (CeilDiv(a, m), a / target);
            && 0 <= f <= fee <= e
            && (e <= 15 <==> a <= 15 * m) && (f >= k <==> k * target <= a) && (e <= k + 7 <==> a <= (k + 7) * m)
  {
    var (a, m) := (fee * TWO_63, TWO_64 - target);
    CeilBounds(a, m, 15);
    CeilBounds(a, m, k + 7);
    CeilBounds(a, m, fee - 1);
    FloorBounds(a, target, k);
    FloorBounds(a, target, fee + 1);
    QuotientNatural(a, target);
    hide CeilDiv;
    ScaledBelow(m, TWO_63, fee);
    ScaledBelow(TWO_63, target, fee);
    assert (fee - 1) * m == fee * m - m && (fee + 1) * target == fee * target + target;
  }

  lemma SameStep(fee: nat, e: int, f: int)
    requires 0 <= f <= fee <= e && fee >= 1
    ensures Stepped(fee, e / 8, false) == Stepped(fee, f / 8, false)
       <==> fee <= 2 || e <= 15 || (f >= 8 * (fee / 8) && e <= 8 * (fee / 8) + 7)
  {
  }

  // ----- When the words are exact -----

  /** The inputs on which the program is the rule. */
  predicate Exact(fee: nat, used: Uint64, target: Uint64)
    requires target > 0
  {
    if target < TWO_63 then used - target < TWO_63 || LuckyExcess(fee, used, target)
    else if used - target > -TWO_63 then used == target || fee * Abs(used - target) < TWO_64 - target
    else if used - target == -TWO_63 then LuckyEdge(fee, target)
    else LuckyFar(fee, used, target)
  }

  /** For every positive fee and target and every gas used: the program is the rule exactly there. */
  lemma WordsAreExact(fee: nat, used: Uint64, target: Uint64)
    requires fee >= 1 && target > 0
    ensures Adjusted(fee, used, target) == Some(Rule(fee, used, target)) <==> Exact(fee, used, target)
  {
    hide Adjusted, Rule, LuckyExcess, LuckyEdge, LuckyFar;
    if target < TWO_63 {
      SmallTarget(fee, used, target);
    } else if used == target {
      NoChange(fee, used);
    } else if used - target > -TWO_63 {
      NearTarget(fee, used, target);
    } else if used - target == -TWO_63 {
      EdgeTarget(fee, used, target);
    } else {
      FarTarget(fee, used, target);
    }
  }

  lemma NoChange(fee: nat, used: Uint64)
    requires fee >= 1 && used > 0
    ensures Adjusted(fee, used, used) == Some(Rule(fee, used, used)) == Some(fee)
  {
  }

  /** The program keeps the fee at 1 or more, except far below a target of 2^63 or more: there only if it drops less than the fee. */
  lemma StaysPositive(fee: nat, used: Uint64, target: Uint64)
    requires fee >= 1 && target > 0
    ensures Adjusted(fee, used, target).Some?
    ensures Adjusted(fee, used, target).value >= 1
       <==> target < TWO_63 || used - target >= -TWO_63 || Drop(fee, used, target) < fee
  {
    if target < TWO_63 {
      SmallStays(fee, used, target);
    } else if used - target < -TWO_63 {
      AdjustedFar(fee, used, target);
      hide Adjusted;
    } else {
      LargeStays(fee, used, target);
    }
  }

  lemma LargeStays(fee: nat, used: Uint64, target: Uint64)
    requires fee >= 1 && target >= TWO_63 && used - target >= -TWO_63
    ensures Adjusted(fee, used, target).Some? && Adjusted(fee, used, target).value >= 1
  {
    if used == target {
      NoChange(fee, used);
    } else if used - target == -TWO_63 {
      AdjustedEdge(fee, used, target);
      hide Adjusted;
    } else {
      AdjustedNear(fee, used, target);
      hide Adjusted;
      if used > target { NearShare(fee, used - target, TWO_64 - target); }
    }
  }

  /** Above such a target a negative step takes less than the fee. */
  lemma NearShare(fee: int, dist: int, m: int)
    requires fee >= 1 && 0 <= dist < m
    ensures fee + fee * dist / -m / 8 >= 1
  {
    NegativeDivisor(fee * dist, m);
    ScaledBelow(dist + 1, m, fee);
    assert fee * (dist + 1) == fee * dist + fee;
    FloorBounds(fee * dist, m, fee);
    QuotientNatural(fee * dist, m);
  }

  lemma SmallStays(fee: nat, used: Uint64, target: Uint64)
    requires fee >= 1 && 0 < target < TWO_63
    ensures Adjusted(fee, used, target).Some? && Adjusted(fee, used, target).value >= 1
  {
    WordDifference(used, target);
    if used - target < TWO_63 {
      SmallSigned(used - target);
      hide SignedView;
      ShareIsNatural(fee, Abs(used - target), target);
    }
  }

  // ----- Monotonicity -----

  lemma {:induction false} ScaledBelow(x: nat, y: nat, d: nat)
    requires x <= y
    ensures x * d <= y * d && d * x <= d * y
  {
  }

  lemma DivideBelow(x: int, y: int, b: int)
    requires x <= y && b > 0
    ensures x / b <= y / b
  {
    var (p, q) := (x / b, y / b);
    assert x == p * b + x % b && y == q * b + y % b;
    assert (p - q) * b == (x - y) - (x % b - y % b);
    if p > q { Multiple(p - q, b); }
  }

  /** The step grows with the fee and with the distance. */
  lemma DeltaGrows(f: nat, g: nat, d: nat, e: nat, target: nat)
    requires f <= g && d <= e && target > 0
    ensures Delta(f, d, target) <= Delta(g, e, target)
  {
    ScaledBelow(f, g, d);
    ScaledBelow(d, e, g);
    DivideBelow(f * d, g * e, target);
    DivideBelow(f * d / target, g * e / target, 8);
  }

  lemma QuotientLags(f: nat, g: nat, d: nat, target: nat)
    requires f <= g && d <= target && target > 0
    ensures g * d / target <= f * d / target + (g - f)
  {
    var k := g - f;
    ScaledBelow(d, target, k);
    assert g * d == f * d + k * d;
    assert f * d == f * d / target * target + f * d % target;
    assert f * d + k * target == (f * d / target + k) * target + f * d % target;
    Quotient(f * d + k * target, target, f * d / target + k, f * d % target);
    DivideBelow(g * d, f * d + k * target, target);
  }

  /** Up to a distance of the target itself, the step grows by no more than the fee does. */
  lemma DeltaLags(f: nat, g: nat, d: nat, target: nat)
    requires f <= g && d <= target && target > 0
    ensures Delta(g, d, target) <= Delta(f, d, target) + (g - f)
  {
    QuotientLags(f, g, d, target);
    Eighths(f * d / target, g * d / target, g - f);
  }

  lemma Eighths(x: int, y: int, k: nat)
    requires y <= x + k
    ensures y / 8 <= x / 8 + k
  {
  }

  /** More gas never lowers the next fee, nor does a higher fee. */
  lemma RuleMonotone(f: nat, g: nat, u: nat, v: nat, target: nat)
    requires 1 <= f <= g && u <= v && target > 0
    ensures Rule(f, u, target) <= Rule(g, v, target)
  {
    hide Delta;
    if u < target {
      DeltaLags(f, g, target - u, target);
      if v < target { DeltaGrows(g, g, target - v, target - u, target); }
    } else if u > target {
      DeltaGrows(f, g, u - target, v - target, target);
    }
  }

  // ----- Runs -----

  function RunFees(fee: nat, blocks: seq<nat>, target: nat): (r: nat)
    requires fee >= 1 && target > 0
    ensures r >= 1
    decreases |blocks|
  {
    if blocks == [] then fee else RunFees(Rule(fee, blocks[0], target), blocks[1..], target)
  }

  function Pow(b: nat, n: nat): nat { if n == 0 then 1 else b * Pow(b, n - 1) }

  function Floor8(fee: nat): nat { if fee < 8 then 8 else fee }

  lemma EighthAtMost(fee: nat, dist: nat, target: nat)
    requires dist <= target && target > 0
    ensures fee * dist / target / 8 <= fee / 8
  {
    ScaledBelow(dist, target, fee);
    DivideBelow(fee * dist, fee * target, target);
    assert fee * target / target == fee by { Quotient(fee * target, target, fee, 0); }
    DivideBelow(fee * dist / target, fee, 8);
  }

  /** One block moves the fee by at most an eighth, above 8. */
  lemma OneBlock(fee: nat, used: nat, target: nat)
    requires fee >= 1 && target > 0 && used <= 2 * target
    ensures 7 * Floor8(fee) <= 8 * Floor8(Rule(fee, used, target)) <= 9 * Floor8(fee)
  {
    EighthAtMost(fee, if used < target then target - used else used - target, target);
  }

  /** Over any run of blocks the fee grows and shrinks by at most an eighth a block. */
  lemma {:induction false} FeeBounds(fee: nat, blocks: seq<nat>, target: nat)
    requires fee >= 1 && target > 0
    requires forall i :: 0 <= i < |blocks| ==> blocks[i] <= 2 * target
    ensures var n := |blocks|;
            Pow(7, n) * Floor8(fee) <= Pow(8, n) * Floor8(RunFees(fee, blocks, target)) <= Pow(9, n) * Floor8(fee)
    decreases |blocks|
  {
    if blocks != [] {
      var n := |blocks| - 1;
      var next := Rule(fee, blocks[0], target);
      var last := Floor8(RunFees(next, blocks[1..], target));
      OneBlock(fee, blocks[0], target);
      FeeBounds(next, blocks[1..], target);
      BoundStep(Pow(7, n), Pow(8, n), Pow(9, n), Floor8(fee), Floor8(next), last);
    }
  }

  lemma BoundStep(p7: nat, p8: nat, p9: nat, f: nat, g: nat, last: nat)
    requires 7 * f <= 8 * g <= 9 * f
    requires p7 * g <= p8 * last <= p9 * g
    ensures (7 * p7) * f <= (8 * p8) * last <= (9 * p9) * f
  {
  }

  /** Empty blocks take any fee down to exactly 1, within as many blocks as the fee. */
  lemma {:induction false} EmptyBlocks(fee: nat, n: nat, target: nat)
    requires fee >= 1 && target > 0
    ensures RunFees(fee, seq(n, _ => 0), target) <= if n < fee then fee - n else 1
    decreases n
  {
    if n > 0 {
      assert seq(n, _ => 0)[1..] == seq(n - 1, _ => 0);
      EmptyBlocks(Rule(fee, 0, target), n - 1, target);
    }
  }

  // ----- The same of the program -----

  /** The fee after a run of blocks, as the program computes it. */
  function RunProgram(fee: int, blocks: seq<Uint64>, target: Uint64): Option<int>
    decreases |blocks|
  {
    if blocks == [] then Some(fee)
    else
      var next := Adjusted(fee, blocks[0], target);
      if next.None? then None else RunProgram(next.value, blocks[1..], target)
  }

  lemma {:induction false} ProgramFollowsRule(fee: nat, blocks: seq<Uint64>, target: Uint64)
    requires fee >= 1 && 0 < target < TWO_63
    requires forall i :: 0 <= i < |blocks| ==> blocks[i] - target < TWO_63
    ensures RunProgram(fee, blocks, target) == Some(RunFees(fee, blocks, target))
    decreases |blocks|
  {
    hide Adjusted, Rule;
    if blocks != [] {
      WordsAreExact(fee, blocks[0], target);
      ProgramFollowsRule(Rule(fee, blocks[0], target), blocks[1..], target);
    }
  }

  /** `RuleMonotone`, `FeeBounds` and `EmptyBlocks` for the program, for a target that fits in a signed word. */
  lemma ProgramMonotone(f: nat, g: nat, u: Uint64, v: Uint64, target: Uint64)
    requires 1 <= f <= g && u <= v && 0 < target < TWO_63 && v - target < TWO_63
    ensures Adjusted(f, u, target).Some? && Adjusted(g, v, target).Some?
    ensures Adjusted(f, u, target).value <= Adjusted(g, v, target).value
  {
    hide Adjusted, Rule;
    WordsAreExact(f, u, target);
    WordsAreExact(g, v, target);
    RuleMonotone(f, g, u, v, target);
  }

  lemma ProgramBounds(fee: nat, blocks: seq<Uint64>, target: Uint64)
    requires fee >= 1 && 0 < target < TWO_63
    requires forall i :: 0 <= i < |blocks| ==> blocks[i] <= 2 * target
    ensures var (n, r) := (|blocks|, RunProgram(fee, blocks, target));
            && r.Some? && r.value >= 1
            && Pow(7, n) * Floor8(fee) <= Pow(8, n) * Floor8(r.value) <= Pow(9, n) * Floor8(fee)
  {
    hide RunProgram, RunFees, Pow, Floor8;
    ProgramFollowsRule(fee, blocks, target);
    FeeBounds(fee, blocks, target);
  }

  lemma ProgramReachesOne(fee: nat, n: nat, target: Uint64)
    requires 1 <= fee <= n && 0 < target < TWO_63
    ensures RunProgram(fee, seq(n, _ => 0), target) == Some(1)
  {
    hide RunProgram, RunFees;
    ProgramFollowsRule(fee, seq(n, _ => 0), target);
    EmptyBlocks(fee, n, target);
  }
}
