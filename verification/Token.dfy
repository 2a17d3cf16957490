/**
 The native token's ledger. Transfers, mints and burns conserve it; distributing
 a fee credits the validator and the treasury without debiting anyone, so over a
 run the balances drift above the supply by exactly the fees distributed.
 */
module Token {
  import opened Prelude

  const MAX_SUPPLY: int := 1_000_000_000 * 1_000_000_000_000_000_000

  function Treasury(): Address { seq(20, i => if i == 19 then 1 else 0) }

  /** Basis points. */
  datatype FeeDistribution = FeeDistribution(validatorShare: int, treasuryShare: int, burnShare: int)

  datatype Config = Config(distribution: FeeDistribution, mintAuthority: Address)

  type Balances = map<Address, int>

  datatype Ledger = Ledger(balances: Balances, totalSupply: int)

  datatype Error =
    | ExceedsMaxSupply
    | NotPositive
    | InsufficientBalance
    | NotMintAuthority
    | BadDistribution

  // ----- Balances -----

  function Get(b: Balances, a: Address): int { if a in b then b[a] else 0 }

  /** A zero balance is not kept. */
  function Set(b: Balances, a: Address, v: int): Balances { if v == 0 then b - {a} else b[a := v] }

  ghost function Sum(b: Balances): int
    decreases |b|
  {
    if b == map[] then 0
    else
      var a :| a in b;
      b[a] + Sum(b - {a})
  }

  lemma {:induction false} SumTakeOut(b: Balances, a: Address)
    requires a in b
    ensures Sum(b) == b[a] + Sum(b - {a})
    decreases |b|
  {
    var c :| c in b && Sum(b) == b[c] + Sum(b - {c});
    if c != a {
      SumTakeOut(b - {c}, a);
      SumTakeOut(b - {a}, c);
      assert b - {c} - {a} == b - {a} - {c};
    }
  }

  /** Setting one balance changes the sum by the difference. */
  lemma SumSet(b: Balances, a: Address, v: int)
    ensures Sum(Set(b, a, v)) == Sum(b) - Get(b, a) + v
  {
    hide Sum;
    if a in b { SumTakeOut(b, a); } else { assert b - {a} == b; }
    if v != 0 {
      SumTakeOut(b[a := v], a);
      assert b[a := v] - {a} == b - {a};
    }
  }

  // ----- The operations, on values -----

  datatype Op =
    | Transfer(src: Address, dst: Address, amount: int)
    | Mint(caller: Address, recipient: Address, amount: int)
    | Burn(addr: Address, amount: int)
    | Distribute(fee: int, validator: Address)

  function ValidatorFee(d: FeeDistribution, fee: int): int { fee * d.validatorShare / 10000 }
  function TreasuryFee(d: FeeDistribution, fee: int): int { fee * d.treasuryShare / 10000 }
  function BurnFee(d: FeeDistribution, fee: int): int { fee - (ValidatorFee(d, fee) + TreasuryFee(d, fee)) }

  predicate Whole(d: FeeDistribution) { d.validatorShare + d.treasuryShare + d.burnShare == 10000 }

  /** The first check that fails; a fee that is not positive is ignored without error. */
  function Refusal(c: Config, l: Ledger, op: Op): Option<Error> {
    match op
    case Transfer(src, _, amount) =>
      if amount <= 0 then Some(NotPositive)
      else if Get(l.balances, src) < amount then Some(InsufficientBalance)
      else None
    case Mint(caller, _, amount) =>
      if caller != c.mintAuthority then Some(NotMintAuthority)
      else if amount <= 0 then Some(NotPositive)
      else if l.totalSupply + amount > MAX_SUPPLY then Some(ExceedsMaxSupply)
      else None
    case Burn(addr, amount) =>
      if amount <= 0 then Some(NotPositive)
      else if Get(l.balances, addr) < amount then Some(InsufficientBalance)
      else None
    case Distribute(fee, _) =>
      if fee > 0 && !Whole(c.distribution) then Some(BadDistribution) else None
  }

  function Move(b: Balances, src: Address, dst: Address, amount: int): Balances {
    var b1 := Set(b, src, Get(b, src) - amount);
    Set(b1, dst, Get(b1, dst) + amount)
  }

  function Credit(b: Balances, a: Address, amount: int): Balances { Set(b, a, Get(b, a) + amount) }

  function Apply(c: Config, l: Ledger, op: Op): Ledger {
    if Refusal(c, l, op).Some? then l
    else
      match op
      case Transfer(src, dst, amount) => l.(balances := Move(l.balances, src, dst, amount))
      case Mint(_, recipient, amount) => Ledger(Credit(l.balances, recipient, amount), l.totalSupply + amount)
      case Burn(addr, amount) => Ledger(Credit(l.balances, addr, -amount), l.totalSupply - amount)
      case Distribute(fee, validator) =>
        if fee <= 0 then l
        else
          var d := c.distribution;
          Ledger(Credit(Credit(l.balances, validator, ValidatorFee(d, fee)), Treasury(), TreasuryFee(d, fee)),
                 l.totalSupply - BurnFee(d, fee))
  }

  function Run(c: Config, l: Ledger, ops: seq<Op>): Ledger
    decreases |ops|
  {
    if ops == [] then l else Run(c, Apply(c, l, ops[0]), ops[1..])
  }

  /** The fee an operation distributes. */
  function FeeOf(c: Config, op: Op): nat {
    if op.Distribute? && op.fee > 0 && Whole(c.distribution) then op.fee else 0
  }

  function FeesOf(c: Config, ops: seq<Op>): nat {
    if ops == [] then 0 else FeeOf(c, ops[0]) + FeesOf(c, ops[1..])
  }

  // ----- Every balance after each operation -----

  /** A transfer of a positive amount that is covered debits the one and credits the other; any other is refused. */
  lemma AfterTransfer(c: Config, l: Ledger, src: Address, dst: Address, amount: int, a: Address)
    ensures var (op, ok) := (Op.Transfer(src, dst, amount), amount > 0 && Get(l.balances, src) >= amount);
            var r := Apply(c, l, op);
            && Refusal(c, l, op) == (if ok then None else Some(if amount <= 0 then NotPositive else InsufficientBalance))
            && (!ok ==> r == l)
            && r.totalSupply == l.totalSupply
            && (ok ==>
              Get(r.balances, a) == Get(l.balances, a) + (if a == dst then amount else 0) - (if a == src then amount else 0))
  {
  }

  /** The mint authority, and nobody else, creates a positive amount within the cap, for the recipient. */
  lemma AfterMint(c: Config, l: Ledger, caller: Address, recipient: Address, amount: int, a: Address)
    ensures var op := Mint(caller, recipient, amount);
            var r := Apply(c, l, op);
            var within := l.totalSupply + amount <= 1_000_000_000_000_000_000_000_000_000;
            var ok := caller == c.mintAuthority && amount > 0 && within;
            && Refusal(c, l, op) == (if ok then None
                                     else Some(if caller != c.mintAuthority then NotMintAuthority
                                               else if amount <= 0 then NotPositive else ExceedsMaxSupply))
            && (!ok ==> r == l)
            && (ok ==> r.totalSupply == l.totalSupply + amount)
            && (ok ==> Get(r.balances, a) == Get(l.balances, a) + if a == recipient then amount else 0)
  {
  }

  /** Burning destroys a positive amount that the address has. */
  lemma AfterBurn(c: Config, l: Ledger, addr: Address, amount: int, a: Address)
    ensures var (op, ok) := (Burn(addr, amount), amount > 0 && Get(l.balances, addr) >= amount);
            var r := Apply(c, l, op);
            && Refusal(c, l, op) == (if ok then None else Some(if amount <= 0 then NotPositive else InsufficientBalance))
            && (!ok ==> r == l)
            && (ok ==> r.totalSupply == l.totalSupply - amount)
            && (ok ==> Get(r.balances, a) == Get(l.balances, a) - if a == addr then amount else 0)
  {
  }

  predicate IsTreasury(a: Address) { a[19] == 1 && forall i :: 0 <= i < 19 ==> a[i] == 0 }

  /** A fee credits the rounded-down shares v and t to the validator and the treasury, and takes the rest off the supply. */
  lemma AfterDistribute(c: Config, l: Ledger, fee: int, validator: Address, a: Address) returns (v: int, t: int)
    requires fee > 0 && c.distribution.validatorShare + c.distribution.treasuryShare + c.distribution.burnShare == 10000
    ensures 0 <= fee * c.distribution.validatorShare - 10000 * v < 10000
    ensures 0 <= fee * c.distribution.treasuryShare - 10000 * t < 10000
    ensures var (op, r) := (Distribute(fee, validator), Apply(c, l, Distribute(fee, validator)));
            && Refusal(c, l, op) == None && r.totalSupply == l.totalSupply - (fee - v - t)
            && Get(r.balances, a) == Get(l.balances, a) + (if a == validator then v else 0) + (if IsTreasury(a) then t else 0)
  {
    var d := c.distribution;
    v, t := ValidatorFee(d, fee), TreasuryFee(d, fee);
    assert a == Treasury() <==> IsTreasury(a) by {
      if IsTreasury(a) { assert forall i :: 0 <= i < 20 ==> a[i] == Treasury()[i]; }
    }
    hide ValidatorFee, TreasuryFee, Treasury;
  }

  /** No fee, and one that cannot be split, change nothing; only the latter is an error. */
  lemma NothingDistributed(c: Config, l: Ledger, fee: int, validator: Address)
    requires fee <= 0 || c.distribution.validatorShare + c.distribution.treasuryShare + c.distribution.burnShare != 10000
    ensures Apply(c, l, Distribute(fee, validator)) == l
    ensures Refusal(c, l, Distribute(fee, validator)) == if fee <= 0 then None else Some(BadDistribution)
  {
  }

  // ----- Conservation -----

  lemma MoveConserves(b: Balances, src: Address, dst: Address, amount: int)
    ensures Sum(Move(b, src, dst, amount)) == Sum(b)
    ensures src == dst ==> forall a :: Get(Move(b, src, dst, amount), a) == Get(b, a)
    ensures src != dst ==> Get(Move(b, src, dst, amount), src) == Get(b, src) - amount
    ensures src != dst ==> Get(Move(b, src, dst, amount), dst) == Get(b, dst) + amount
    ensures forall a :: a != src && a != dst ==> Get(Move(b, src, dst, amount), a) == Get(b, a)
  {
    hide Sum;
    var b1 := Set(b, src, Get(b, src) - amount);
    SumSet(b, src, Get(b, src) - amount);
    SumSet(b1, dst, Get(b1, dst) + amount);
  }

  lemma ApplyDrift(c: Config, l: Ledger, op: Op)
    ensures var r := Apply(c, l, op);
            Sum(r.balances) - r.totalSupply == Sum(l.balances) - l.totalSupply + FeeOf(c, op)
  {
    hide Sum, Set, Get, Move, ValidatorFee, TreasuryFee;
    if Refusal(c, l, op).None? {
      match op {
        case Transfer(src, dst, amount) => MoveConserves(l.balances, src, dst, amount);
        case Mint(_, recipient, amount) => SumSet(l.balances, recipient, Get(l.balances, recipient) + amount);
        case Burn(addr, amount) => SumSet(l.balances, addr, Get(l.balances, addr) + -amount);
        case Distribute(fee, validator) =>
          var (v, t) := (ValidatorFee(c.distribution, fee), TreasuryFee(c.distribution, fee));
          var b1 := Credit(l.balances, validator, v);
          SumSet(l.balances, validator, Get(l.balances, validator) + v);
          SumSet(b1, Treasury(), Get(b1, Treasury()) + t);
      }
    }
  }

  /** Over any run the balances outgrow the supply by exactly the fees distributed. */
  lemma {:induction false} RunDrift(c: Config, l: Ledger, ops: seq<Op>)
    ensures var r := Run(c, l, ops);
            Sum(r.balances) - r.totalSupply == Sum(l.balances) - l.totalSupply + FeesOf(c, ops)
    decreases |ops|
  {
    hide Sum, Apply;
    if ops != [] {
      ApplyDrift(c, l, ops[0]);
      RunDrift(c, Apply(c, l, ops[0]), ops[1..]);
    }
  }

  /** The split adds up, and the burn exceeds its exact share by less than 2. */
  lemma SplitIsExact(d: FeeDistribution, fee: int)
    requires Whole(d)
    ensures ValidatorFee(d, fee) + TreasuryFee(d, fee) + BurnFee(d, fee) == fee
    ensures fee * d.burnShare <= 10000 * BurnFee(d, fee) < fee * d.burnShare + 20000
  {
  }

  // ----- The cap -----

  /** What one genesis allocation leaves. */
  ghost predicate IsGenesis(l: Ledger) {
    && (forall a :: a in l.balances ==> l.balances[a] >= 0)
    && l.totalSupply == Sum(l.balances) <= MAX_SUPPLY
  }

  lemma ApplyCapped(c: Config, l: Ledger, op: Op)
    requires l.totalSupply <= MAX_SUPPLY && (c.distribution.burnShare >= 0 || !Whole(c.distribution))
    ensures Apply(c, l, op).totalSupply <= MAX_SUPPLY
  {
    if op.Distribute? && op.fee > 0 && Whole(c.distribution) {
      SplitIsExact(c.distribution, op.fee);
      assert op.fee * c.distribution.burnShare >= 0;
    }
  }

  lemma {:induction false} RunCapped(c: Config, l: Ledger, ops: seq<Op>)
    requires l.totalSupply <= MAX_SUPPLY && (c.distribution.burnShare >= 0 || !Whole(c.distribution))
    ensures Run(c, l, ops).totalSupply <= MAX_SUPPLY
    decreases |ops|
  {
    if ops != [] {
      ApplyCapped(c, l, ops[0]);
      RunCapped(c, Apply(c, l, ops[0]), ops[1..]);
    }
  }

  lemma OneStep(c: Config, l: Ledger, op: Op)
    ensures Run(c, l, [op]) == Apply(c, l, op)
  {
    assert [op][1..] == [];
    hide Apply;
  }

  lemma FullShare(d: FeeDistribution)
    ensures ValidatorFee(d, 10000) == d.validatorShare && TreasuryFee(d, 10000) == d.treasuryShare
  {
  }

  /** The supply stays within its cap in every run from genesis exactly when a valid distribution burns no negative share. */
  lemma CapIffBurnNotNegative(c: Config)
    ensures (forall l, ops :: IsGenesis(l) ==> Run(c, l, ops).totalSupply <= MAX_SUPPLY)
       <==> c.distribution.burnShare >= 0 || !Whole(c.distribution)
  {
    if c.distribution.burnShare >= 0 || !Whole(c.distribution) {
      forall l, ops | IsGenesis(l)
        ensures Run(c, l, ops).totalSupply <= MAX_SUPPLY
      {
        RunCapped(c, l, ops);
      }
    } else {
      var l := Ledger(map[Treasury() := MAX_SUPPLY], MAX_SUPPLY);
      SumTakeOut(l.balances, Treasury());
      assert l.balances - {Treasury()} == map[];
      assert IsGenesis(l);
      var op := Distribute(10000, Treasury());
      FullShare(c.distribution);
      OneStep(c, l, op);
      assert Run(c, l, [op]).totalSupply > MAX_SUPPLY;
    }
  }

  /** In every run from genesis: within the cap, and the drift is the fees. */
  lemma EveryRun(c: Config, l: Ledger, ops: seq<Op>)
    requires IsGenesis(l) && (c.distribution.burnShare >= 0 || !Whole(c.distribution))
    ensures var r := Run(c, l, ops); r.totalSupply <= MAX_SUPPLY && Sum(r.balances) - r.totalSupply == FeesOf(c, ops)
  {
    RunCapped(c, l, ops);
    RunDrift(c, l, ops);
  }

  // ----- Negative balances -----

  predicate NonNegative(b: Balances) { forall a :: a in b ==> b[a] >= 0 }

  predicate NoNegativeCredit(d: FeeDistribution) { !Whole(d) || (d.validatorShare >= 0 && d.treasuryShare >= 0) }

  lemma {:induction false} RunNonNegative(c: Config, l: Ledger, ops: seq<Op>)
    requires NonNegative(l.balances) && NoNegativeCredit(c.distribution)
    ensures NonNegative(Run(c, l, ops).balances)
    decreases |ops|
  {
    if ops != [] {
      if ops[0].Distribute? && ops[0].fee > 0 && Whole(c.distribution) {
        assert ops[0].fee * c.distribution.validatorShare >= 0 && ops[0].fee * c.distribution.treasuryShare >= 0;
      }
      assert NonNegative(Apply(c, l, ops[0]).balances);
      RunNonNegative(c, Apply(c, l, ops[0]), ops[1..]);
    }
  }

  lemma NothingIsGenesis()
    ensures IsGenesis(Ledger(map[], 0))
  {
  }

  /** What a first fee of 10000, the basis points themselves, does to an empty ledger. */
  lemma FirstFee(c: Config, validator: Address)
    requires Whole(c.distribution)
    ensures var (d, r) := (c.distribution, Run(c, Ledger(map[], 0), [Distribute(10000, validator)]));
            && r.totalSupply == -d.burnShare
            && Get(r.balances, validator) == d.validatorShare + (if validator == Treasury() then d.treasuryShare else 0)
            && (validator != Treasury() ==> Get(r.balances, Treasury()) == d.treasuryShare)
  {
    var (l, op) := (Ledger(map[], 0), Distribute(10000, validator));
    assert Run(c, l, [op]) == Apply(c, l, op) by { OneStep(c, l, op); }
    FullShare(c.distribution);
    hide ValidatorFee, TreasuryFee, Run, Treasury;
  }

  /** No run from genesis drives a balance below zero exactly when a valid distribution credits no negative share. */
  lemma BalancesNonNegativeIff(c: Config)
    ensures (forall l, ops :: IsGenesis(l) ==> NonNegative(Run(c, l, ops).balances)) <==> NoNegativeCredit(c.distribution)
  {
    if NoNegativeCredit(c.distribution) {
      forall l, ops | IsGenesis(l)
        ensures NonNegative(Run(c, l, ops).balances)
      {
        RunNonNegative(c, l, ops);
      }
    } else {
      var validator: Address := seq(20, _ => 0);
      assert validator[19] != Treasury()[19];
      NothingIsGenesis();
      FirstFee(c, validator);
      assert !NonNegative(Run(c, Ledger(map[], 0), [Distribute(10000, validator)]).balances);
    }
  }

  // ----- Negative supply -----

  lemma {:induction false} SumNonNegative(b: Balances)
    requires NonNegative(b)
    ensures Sum(b) >= 0
    decreases |b|
  {
    if b != map[] {
      var a :| a in b;
      SumTakeOut(b, a);
      SumNonNegative(b - {a});
    }
  }

  lemma {:induction false} NoFees(c: Config, ops: seq<Op>)
    requires !Whole(c.distribution)
    ensures FeesOf(c, ops) == 0
  {
    if ops != [] { NoFees(c, ops[1..]); }
  }

  lemma NoFeesNoDebt(c: Config, l: Ledger, ops: seq<Op>)
    requires IsGenesis(l) && !Whole(c.distribution)
    ensures Run(c, l, ops).totalSupply >= 0
  {
    hide Sum, Run;
    NoFees(c, ops);
    RunDrift(c, l, ops);
    RunNonNegative(c, l, ops);
    SumNonNegative(Run(c, l, ops).balances);
  }

  /** Distribute a fee, then burn what it credited: more than was ever supplied. */
  lemma FeesMakeDebt(c: Config) returns (ops: seq<Op>)
    requires Whole(c.distribution)
    ensures Run(c, Ledger(map[], 0), ops).totalSupply < 0
  {
    var (d, fee) := (c.distribution, Distribute(10000, Treasury()));
    FirstFee(c, Treasury());
    if d.burnShare > 0 { return [fee]; }
    var burn := Burn(Treasury(), d.validatorShare + d.treasuryShare);
    var l := Run(c, Ledger(map[], 0), [fee]);
    assert [fee, burn][1..] == [burn];
    OneStep(c, Ledger(map[], 0), fee);
    OneStep(c, l, burn);
    return [fee, burn];
  }

  /**
   The supply stays at zero or above in every run from genesis exactly when the
   distribution is refused, so that no fee is ever distributed.
   */
  lemma SupplyNonNegativeIff(c: Config)
    ensures (forall l, ops :: IsGenesis(l) ==> Run(c, l, ops).totalSupply >= 0) <==> !Whole(c.distribution)
  {
    if Whole(c.distribution) {
      NothingIsGenesis();
      var ops := FeesMakeDebt(c);
      assert Run(c, Ledger(map[], 0), ops).totalSupply < 0;
    } else {
      forall l, ops | IsGenesis(l)
        ensures Run(c, l, ops).totalSupply >= 0
      {
        NoFeesNoDebt(c, l, ops);
      }
    }
  }

  // ----- The runtime -----

  class GSTRuntime {
    const config: Config
    var balances: Balances
    var totalSupply: int

    ghost function State(): Ledger
      reads this
    {
      Ledger(balances, totalSupply)
    }

    constructor (mintAuthority: Address, distribution: FeeDistribution)
      ensures State() == Ledger(map[], 0) && config == Config(distribution, mintAuthority)
    {
      config := Config(distribution, mintAuthority);
      balances, totalSupply := map[], 0;
    }

    /** On a new runtime, non-negative allocations make a genesis. */
    method AllocGenesis(allocations: Balances) returns (r: Option<Error>)
      modifies this
      ensures r == if Sum(allocations) > MAX_SUPPLY then Some(ExceedsMaxSupply) else None
      ensures State() == if r.Some? then old(State()) else Ledger(old(balances) + allocations, Sum(allocations))
      ensures r.None? && old(balances) == map[] && NonNegative(allocations) ==> IsGenesis(State())
    {
      var total := 0;
      var todo := allocations.Keys;
      assert allocations - (allocations.Keys - todo) == allocations;
      while todo != {}
        invariant todo <= allocations.Keys && unchanged(this)
        invariant total + Sum(allocations - (allocations.Keys - todo)) == Sum(allocations)
        decreases todo
      {
        var a :| a in todo;
        var rest := allocations - (allocations.Keys - todo);
        SumTakeOut(rest, a);
        assert rest - {a} == allocations - (allocations.Keys - (todo - {a}));
        total := total + allocations[a];
        todo := todo - {a};
      }
      assert allocations - allocations.Keys == map[];
      if total > MAX_SUPPLY { return Some(ExceedsMaxSupply); }
      balances := balances + allocations;
      totalSupply := total;
      assert map[] + allocations == allocations;
      return None;
    }

    method BalanceOf(a: Address) returns (r: int)
      ensures r == Get(balances, a)
    {
      r := if a in balances then balances[a] else 0;
    }

    method SetBalance(a: Address, balance: int)
      modifies `balances
      ensures balances == Set(old(balances), a, balance)
    {
      if balance == 0 { balances := balances - {a}; } else { balances := balances[a := balance]; }
    }

    method Transfer(src: Address, dst: Address, amount: int) returns (r: Option<Error>)
      modifies this
      ensures r == Refusal(config, old(State()), Op.Transfer(src, dst, amount))
      ensures State() == Apply(config, old(State()), Op.Transfer(src, dst, amount))
    {
      if amount <= 0 { return Some(NotPositive); }
      var srcBal := BalanceOf(src);
      if srcBal < amount { return Some(InsufficientBalance); }
      SetBalance(src, srcBal - amount);
      var dstBal := BalanceOf(dst);
      SetBalance(dst, dstBal + amount);
      return None;
    }

    method Mint(caller: Address, recipient: Address, amount: int) returns (r: Option<Error>)
      modifies this
      ensures r == Refusal(config, old(State()), Op.Mint(caller, recipient, amount))
      ensures State() == Apply(config, old(State()), Op.Mint(caller, recipient, amount))
    {
      if caller != config.mintAuthority { return Some(NotMintAuthority); }
      if amount <= 0 { return Some(NotPositive); }
      var newSupply := totalSupply + amount;
      if newSupply > MAX_SUPPLY { return Some(ExceedsMaxSupply); }
      var bal := BalanceOf(recipient);
      SetBalance(recipient, bal + amount);
      totalSupply := newSupply;
      return None;
    }

    method Burn(addr: Address, amount: int) returns (r: Option<Error>)
      modifies this
      ensures r == Refusal(config, old(State()), Op.Burn(addr, amount))
      ensures State() == Apply(config, old(State()), Op.Burn(addr, amount))
    {
      if amount <= 0 { return Some(NotPositive); }
      var bal := BalanceOf(addr);
      if bal < amount { return Some(InsufficientBalance); }
      SetBalance(addr, bal - amount);
      totalSupply := totalSupply - amount;
      return None;
    }

    method DistributeFees(totalFee: int, validator: Address) returns (r: Option<Error>)
      modifies this
      ensures r == Refusal(config, old(State()), Distribute(totalFee, validator))
      ensures State() == Apply(config, old(State()), Distribute(totalFee, validator))
    {
      if totalFee <= 0 { return None; }
      var d := config.distribution;
      if d.validatorShare + d.treasuryShare + d.burnShare != 10000 { return Some(BadDistribution); }
      var validatorFee := totalFee * d.validatorShare / 10000;
      var treasuryFee := totalFee * d.treasuryShare / 10000;
      var burnFee := totalFee - (validatorFee + treasuryFee);
      var vBal := BalanceOf(validator);
      SetBalance(validator, vBal + validatorFee);
      var tBal := BalanceOf(Treasury());
      SetBalance(Treasury(), tBal + treasuryFee);
      totalSupply := totalSupply - burnFee;
      return None;
    }
  }
}
