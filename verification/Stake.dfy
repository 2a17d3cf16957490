/**
 Stake sums and the two-thirds rule. The program adds stakes in 64-bit words and
 compares a rounded quotient with a rounded constant. `VerdictIsExact` and
 `VerdictMargin` say what that makes of the two-thirds rule; the wrapping of the
 sums alone, with the comparison read exactly, is `ExactIffNoOverflow`.
 */
module Stake {
  import opened Prelude
  import Float64

  type Amount = x: int | 0 <= x < 0x1_0000_0000_0000_0000

  class Validator {
    const address: Address
    const stake: Amount
    var jailed: bool
    var jailUntil: int

    constructor (address: Address, stake: Amount, jailed: bool, jailUntil: int)
      ensures this.address == address && this.stake == stake && this.jailed == jailed && this.jailUntil == jailUntil
    {
      this.address, this.stake, this.jailed, this.jailUntil := address, stake, jailed, jailUntil;
    }
  }

  ghost predicate Unique(vs: seq<Validator>) {
    forall i, j :: 0 <= i < j < |vs| ==> vs[i].address != vs[j].address
  }

  function Sum(vs: seq<Validator>): nat {
    if vs == [] then 0 else vs[0].stake + Sum(vs[1..])
  }

  /** The stake of the validators whose address is in `who`. */
  function SumOf(vs: seq<Validator>, who: set<Address>): nat {
    if vs == [] then 0 else (if vs[0].address in who then vs[0].stake else 0) + SumOf(vs[1..], who)
  }

  function Addresses(vs: seq<Validator>): set<Address> {
    set v | v in vs :: v.address
  }

  // ----- Sums -----

  lemma {:induction false} SumAppend(a: seq<Validator>, b: seq<Validator>)
    ensures Sum(a + b) == Sum(a) + Sum(b)
  {
    if a == [] {
      assert a + b == b;
    } else {
      assert (a + b)[1..] == a[1..] + b;
      SumAppend(a[1..], b);
    }
  }

  lemma {:induction false} SumOfAppend(a: seq<Validator>, b: seq<Validator>, who: set<Address>)
    ensures SumOf(a + b, who) == SumOf(a, who) + SumOf(b, who)
  {
    if a == [] {
      assert a + b == b;
    } else {
      assert (a + b)[1..] == a[1..] + b;
      SumOfAppend(a[1..], b, who);
    }
  }

  /** Taking one validator out. */
  lemma TakeOut(b: seq<Validator>, i: nat, who: set<Address>)
    requires i < |b|
    ensures Sum(b) == b[i].stake + Sum(b[..i] + b[i + 1..])
    ensures SumOf(b, who) == (if b[i].address in who then b[i].stake else 0) + SumOf(b[..i] + b[i + 1..], who)
  {
    var tail := b[i..];
    assert b == b[..i] + tail && tail[1..] == b[i + 1..];
    SumAppend(b[..i], tail);
    SumOfAppend(b[..i], tail, who);
    SumAppend(b[..i], b[i + 1..]);
    SumOfAppend(b[..i], b[i + 1..], who);
  }

  lemma TakenOut(b: seq<Validator>, i: nat)
    requires i < |b|
    ensures multiset(b[..i] + b[i + 1..]) == multiset(b) - multiset{b[i]}
  {
    assert b == b[..i] + [b[i]] + b[i + 1..];
  }

  /** The order of the validators does not matter. */
  lemma {:induction false} SumOfPermuted(a: seq<Validator>, b: seq<Validator>, who: set<Address>)
    requires multiset(a) == multiset(b)
    ensures SumOf(a, who) == SumOf(b, who) && Sum(a) == Sum(b)
    decreases |a|
  {
    hide Sum, SumOf;
    if a == [] {
      assert |b| == |multiset(b)| == 0;
    } else {
      assert a[0] in multiset(a);
      var i :| 0 <= i < |b| && b[i] == a[0];
      TakenOut(a, 0);
      TakenOut(b, i);
      TakeOut(a, 0, who);
      TakeOut(b, i, who);
      SumOfPermuted(a[..0] + a[1..], b[..i] + b[i + 1..], who);
    }
  }

  /** Inclusion and exclusion. */
  lemma {:induction false} SumOfUnion(vs: seq<Validator>, a: set<Address>, b: set<Address>)
    ensures SumOf(vs, a + b) + SumOf(vs, a * b) == SumOf(vs, a) + SumOf(vs, b)
    ensures SumOf(vs, a + b) <= Sum(vs)
    ensures a <= b ==> SumOf(vs, a) <= SumOf(vs, b)
  {
    if vs != [] { SumOfUnion(vs[1..], a, b); }
  }

  lemma {:induction false} SumOfAll(vs: seq<Validator>, who: set<Address>)
    requires Addresses(vs) <= who
    ensures SumOf(vs, who) == Sum(vs)
  {
    if vs != [] {
      assert vs[0].address in Addresses(vs);
      assert Addresses(vs[1..]) <= Addresses(vs);
      SumOfAll(vs[1..], who);
    }
  }

  lemma {:induction false} SumOfNone(vs: seq<Validator>, who: set<Address>)
    requires Addresses(vs) !! who
    ensures SumOf(vs, who) == 0
  {
    if vs != [] {
      assert vs[0].address in Addresses(vs);
      assert Addresses(vs[1..]) <= Addresses(vs);
      SumOfNone(vs[1..], who);
    }
  }

  lemma SumOfComplement(vs: seq<Validator>, who: set<Address>)
    ensures SumOf(vs, who) + SumOf(vs, Addresses(vs) - who) == Sum(vs)
  {
    SumOfUnion(vs, who, Addresses(vs) - who);
    SumOfAll(vs, who + (Addresses(vs) - who));
    assert who * (Addresses(vs) - who) == {};
    SumOfNone(vs, {});
  }

  /** With unique addresses a new voter adds exactly its own stake. */
  lemma SumOfOne(vs: seq<Validator>, i: nat, who: set<Address>)
    requires i < |vs| && Unique(vs) && vs[i].address !in who
    ensures SumOf(vs, who + {vs[i].address}) == SumOf(vs, who) + vs[i].stake
  {
    var a := {vs[i].address};
    SumOfUnion(vs, who, a);
    assert who * a == {};
    SumOfNone(vs, {});
    assert vs == vs[..i] + [vs[i]] + vs[i + 1..];
    SumOfAppend(vs[..i] + [vs[i]], vs[i + 1..], a);
    SumOfAppend(vs[..i], [vs[i]], a);
    SumOfNone(vs[..i], a);
    SumOfNone(vs[i + 1..], a);
  }

  // ----- The two-thirds rule -----

  /** What the program decides: sums in 64-bit words, then the comparison of doubles. */
  predicate Verdict(active: seq<Validator>, voters: set<Address>) {
    var total := Sum(active) % TWO_64;
    total != 0 && Float64.ExceedsTwoThirds(SumOf(active, voters) % TWO_64, total)
  }

  /** The same sums, compared exactly. */
  predicate ExactVerdict(active: seq<Validator>, voters: set<Address>) {
    var total := Sum(active) % TWO_64;
    total != 0 && 3 * (SumOf(active, voters) % TWO_64) > 2 * total
  }

  /** What it is meant to decide. */
  predicate TwoThirds(active: seq<Validator>, voters: set<Address>) {
    3 * SumOf(active, voters) > 2 * Sum(active)
  }

  lemma ExactWithoutOverflow(active: seq<Validator>, voters: set<Address>)
    requires Sum(active) < TWO_64
    ensures ExactVerdict(active, voters) <==> TwoThirds(active, voters)
  {
    SumOfUnion(active, voters, voters);
    assert voters + voters == voters;
    assert Sum(active) % TWO_64 == Sum(active) && SumOf(active, voters) % TWO_64 == SumOf(active, voters);
  }

  /** The first validator at which the running sum no longer fits in a word. */
  lemma {:induction false} Crossing(vs: seq<Validator>, n: nat) returns (i: nat)
    requires n <= |vs| && Sum(vs[..n]) >= TWO_64
    ensures i < n && Sum(vs[..i]) < TWO_64 <= Sum(vs[..i]) + vs[i].stake
    decreases n
  {
    assert vs[..n] == vs[..n - 1] + [vs[n - 1]];
    SumAppend(vs[..n - 1], [vs[n - 1]]);
    assert Sum([vs[n - 1]]) == vs[n - 1].stake;
    if Sum(vs[..n - 1]) < TWO_64 { i := n - 1; } else { i := Crossing(vs, n - 1); }
  }

  predicate Wrong(active: seq<Validator>, voters: set<Address>) {
    ExactVerdict(active, voters) != TwoThirds(active, voters)
  }

  /** What the program decides on a group, in terms of the two sums. */
  predicate WordVerdict(t: nat, s: nat) {
    s % TWO_64 != 0 && 3 * (t % TWO_64) > 2 * (s % TWO_64)
  }

  /** If t fits in a word and s does not, the verdict on t or on the rest of s is wrong, unless t is small. */
  lemma SmallOrWrong(t: nat, s: nat)
    requires t < TWO_64 <= s && s % TWO_64 != 0
    requires WordVerdict(t, s) <==> 3 * t > 2 * s
    requires WordVerdict(s - t, s) <==> 3 * (s - t) > 2 * s
    ensures 3 * t <= 2 * (s % TWO_64)
  {
  }

  /** A small group that makes the sum overflow together with one more small voter leaves a wrong verdict. */
  lemma SmallIsWrong(t: nat, x: nat, s: nat)
    requires t < TWO_64 <= s && s % TWO_64 != 0 && t + x >= TWO_64
    requires 3 * t <= 2 * (s % TWO_64) && 3 * x <= 2 * (s % TWO_64)
    ensures !WordVerdict(s - t, s) && 3 * (s - t) > 2 * s
  {
  }

  /** A total that does not fit always leaves some set of voters with the wrong verdict, however exactly the words are compared. */
  lemma OverflowIsWrong(active: seq<Validator>) returns (voters: set<Address>)
    requires Unique(active) && Sum(active) >= TWO_64
    ensures Wrong(active, voters)
  {
    hide Sum, SumOf, Addresses;
    var all := Addresses(active);
    SumOfAll(active, all);
    if Sum(active) % TWO_64 == 0 { return all; }
    assert active[..|active|] == active;
    var i := Crossing(active, |active|);
    var group, one := Addresses(active[..i]), {active[i].address};
    PrefixSum(active, i);
    SumOfComplement(active, group);
    SumOfComplement(active, one);
    if Wrong(active, group) { return group; }
    if Wrong(active, all - group) { return all - group; }
    if Wrong(active, one) { return one; }
    if Wrong(active, all - one) { return all - one; }
    SmallOrWrong(SumOf(active, group), Sum(active));
    SmallOrWrong(SumOf(active, one), Sum(active));
    SmallIsWrong(SumOf(active, group), SumOf(active, one), Sum(active));
    return all - group;
  }

  lemma PrefixSum(active: seq<Validator>, i: nat)
    requires Unique(active) && i < |active|
    ensures SumOf(active, Addresses(active[..i])) == Sum(active[..i])
    ensures SumOf(active, {active[i].address}) == active[i].stake
  {
    var who := Addresses(active[..i]);
    assert active == active[..i] + active[i..];
    SumOfAppend(active[..i], active[i..], who);
    SumOfAll(active[..i], who);
    SumOfNone(active[i..], who);
    SumOfOne(active, i, {});
    SumOfNone(active, {});
    assert {} + {active[i].address} == {active[i].address};
  }

  /** Compared exactly, the sums give the two-thirds rule for every set of voters exactly when the total fits in a word. */
  lemma ExactIffNoOverflow(active: seq<Validator>)
    requires Unique(active)
    ensures (forall voters :: ExactVerdict(active, voters) == TwoThirds(active, voters)) <==> Sum(active) < TWO_64
  {
    if Sum(active) < TWO_64 {
      forall voters
        ensures ExactVerdict(active, voters) == TwoThirds(active, voters)
      {
        ExactWithoutOverflow(active, voters);
      }
    } else {
      var voters := OverflowIsWrong(active);
      assert ExactVerdict(active, voters) != TwoThirds(active, voters);
    }
  }

  // ----- The program's verdict -----

  lemma WordsFit(active: seq<Validator>, voters: set<Address>)
    requires Sum(active) < TWO_64
    ensures SumOf(active, voters) <= Sum(active)
    ensures Verdict(active, voters) <==> Sum(active) > 0 && Float64.ExceedsTwoThirds(SumOf(active, voters), Sum(active))
  {
    hide Float64.ExceedsTwoThirds, Sum, SumOf;
    SumOfUnion(active, voters, voters);
    assert voters + voters == voters;
    assert Sum(active) % TWO_64 == Sum(active) && SumOf(active, voters) % TWO_64 == SumOf(active, voters);
  }

  const TWO_53: nat := 0x20_0000_0000_0000
  const TWO_51: nat := 0x8_0000_0000_0000
  const TWO_50: nat := 0x4_0000_0000_0000

  /** Up to a total of 2^53 the program decides the two-thirds rule, for every set of voters. */
  lemma VerdictIsExact(active: seq<Validator>, voters: set<Address>)
    requires Sum(active) <= TWO_53
    ensures Verdict(active, voters) <==> TwoThirds(active, voters)
  {
    hide Float64.ExceedsTwoThirds, Verdict, Sum, SumOf;
    WordsFit(active, voters);
    if Sum(active) > 0 { Float64.ExactComparison(SumOf(active, voters), Sum(active)); }
  }

  /** At two thirds or above, or below by at most one part in 2^51. */
  predicate CloseBelow(v: nat, t: nat) { t > 0 && TWO_51 * (2 * t - 3 * v) <= t }

  /** Above two thirds by at least one part in 2^50. */
  predicate ClearlyAbove(v: nat, t: nat) { t > 0 && TWO_50 * (3 * v - 2 * t) >= t }

  /** As long as the total fits in a word, the verdict is right unless the votes are within one part in 2^50 of two thirds. */
  lemma VerdictMargin(active: seq<Validator>, voters: set<Address>)
    requires Sum(active) < TWO_64
    ensures Verdict(active, voters) ==> CloseBelow(SumOf(active, voters), Sum(active))
    ensures ClearlyAbove(SumOf(active, voters), Sum(active)) ==> Verdict(active, voters)
  {
    WordsFit(active, voters);
    hide Float64.ExceedsTwoThirds, Verdict, Sum, SumOf;
    if Sum(active) > 0 { Float64.ComparisonMargin(SumOf(active, voters), Sum(active)); }
  }

  // ----- Safety -----

  /** Some stake: a third of it but for one part in 2^50, and strictly more than a third up to a total of 2^53. */
  predicate AThird(active: seq<Validator>, who: set<Address>) {
    && Sum(active) > 0 && TWO_50 * 3 * SumOf(active, who) >= (TWO_50 - 1) * Sum(active)
    && (Sum(active) <= TWO_53 ==> 3 * SumOf(active, who) > Sum(active))
  }

  /** Two quorums overlap in a third of the stake, up to rounding, and in strictly more up to a total of 2^53. */
  lemma QuorumsOverlap(active: seq<Validator>, a: set<Address>, b: set<Address>)
    requires Sum(active) < TWO_64 && Verdict(active, a) && Verdict(active, b)
    ensures AThird(active, a * b)
  {
    hide Verdict, Sum, SumOf;
    VerdictMargin(active, a);
    VerdictMargin(active, b);
    if Sum(active) <= TWO_53 {
      VerdictIsExact(active, a);
      VerdictIsExact(active, b);
    }
    SumOfUnion(active, a, b);
  }

  /** More voters never lose a quorum. */
  lemma QuorumGrows(active: seq<Validator>, a: set<Address>, b: set<Address>)
    requires Sum(active) < TWO_64 && Verdict(active, a) && a <= b
    ensures Verdict(active, b)
  {
    hide Verdict, Float64.ExceedsTwoThirds, Sum, SumOf;
    WordsFit(active, a);
    WordsFit(active, b);
    SumOfUnion(active, a, b);
    Float64.ExceedsMonotone(SumOf(active, a), SumOf(active, b), Sum(active));
  }

  /** All together always have one, if they have any stake at all. */
  lemma UnanimousQuorum(active: seq<Validator>)
    requires 0 < Sum(active) < TWO_64
    ensures Verdict(active, Addresses(active))
  {
    hide Verdict, Sum, SumOf, Addresses;
    SumOfAll(active, Addresses(active));
    VerdictMargin(active, Addresses(active));
  }
}
