/**
 Validator set, vote collection and finality. The methods compute the verdict of
 module Stake; the lemmas at the end say what two finality certificates mean.
 */
module Consensus {
  import opened Prelude
  import opened Stake
  import Float64

  // ----- Validator set -----

  predicate IsActive(v: Validator, now: int)
    reads v
  {
    !v.jailed || v.jailUntil < now
  }

  function ActiveOf(vs: seq<Validator>, now: int): seq<Validator>
    reads vs
  {
    if vs == [] then [] else (if IsActive(vs[0], now) then [vs[0]] else []) + ActiveOf(vs[1..], now)
  }

  /** Best stake first. */
  predicate ByStake(vs: seq<Validator>) {
    forall i, j :: 0 <= i < j < |vs| ==> vs[i].stake >= vs[j].stake
  }

  lemma {:induction false} ActiveAppend(a: seq<Validator>, v: Validator, now: int)
    ensures ActiveOf(a + [v], now) == ActiveOf(a, now) + if IsActive(v, now) then [v] else []
  {
    if a == [] {
      assert a + [v] == [v] && ActiveOf([v], now) == (if IsActive(v, now) then [v] else []) + ActiveOf([], now);
    } else {
      assert (a + [v])[1..] == a[1..] + [v];
      ActiveAppend(a[1..], v, now);
    }
  }

  lemma {:induction false} ActiveSubset(vs: seq<Validator>, now: int)
    ensures forall v :: v in ActiveOf(vs, now) ==> v in vs && IsActive(v, now)
    ensures forall v :: v in vs && IsActive(v, now) ==> v in ActiveOf(vs, now)
  {
    if vs != [] {
      ActiveSubset(vs[1..], now);
      assert forall v :: v in vs <==> v == vs[0] || v in vs[1..];
    }
  }

  lemma {:induction false} ActiveUnique(vs: seq<Validator>, now: int)
    requires Unique(vs)
    ensures Unique(ActiveOf(vs, now))
  {
    if vs != [] {
      ActiveUnique(vs[1..], now);
      ActiveSubset(vs[1..], now);
      var rest := ActiveOf(vs[1..], now);
      forall i | 0 <= i < |rest|
        ensures rest[i].address != vs[0].address
      {
        assert rest[i] in rest && rest[i] in vs[1..];
        var j :| 1 <= j < |vs| && vs[j] == rest[i];
      }
    }
  }

  /** Who is active: whoever was never jailed, or was jailed until some time before now. */
  lemma ActiveIsOutOfJail(vs: seq<Validator>, now: int, v: Validator)
    requires v in vs
    ensures v.jailed && v.jailUntil >= now ==> v !in ActiveOf(vs, now)
    ensures !v.jailed || v.jailUntil < now ==> v in ActiveOf(vs, now)
  {
    ActiveSubset(vs, now);
  }

  lemma {:induction false} ActiveConcat(a: seq<Validator>, b: seq<Validator>, now: int)
    ensures ActiveOf(a + b, now) == ActiveOf(a, now) + ActiveOf(b, now)
  {
    if a == [] {
      assert a + b == b;
    } else {
      assert (a + b)[1..] == a[1..] + b;
      ActiveConcat(a[1..], b, now);
    }
  }

  /** A validator in jail might as well not be in the set: neither a stake sum nor a verdict depends on it. */
  lemma JailedDoesNotCount(a: seq<Validator>, v: Validator, b: seq<Validator>, now: int, voters: set<Address>)
    requires v.jailed && v.jailUntil >= now
    ensures var (with, without) := (ActiveOf(a + [v] + b, now), ActiveOf(a + b, now));
            && with == without
            && Sum(with) == Sum(without) && SumOf(with, voters) == SumOf(without, voters)
            && (Verdict(with, voters) <==> Verdict(without, voters))
  {
    hide Verdict, Sum, SumOf;
    ActiveConcat(a + [v], b, now);
    ActiveConcat(a, [v], now);
    ActiveConcat(a, b, now);
    assert ActiveOf([v], now) == [];
  }

  /** A validator out of jail counts with its stake, and its vote with it. */
  lemma FreeCounts(a: seq<Validator>, v: Validator, b: seq<Validator>, now: int, voters: set<Address>)
    requires !v.jailed || v.jailUntil < now
    ensures var (with, without) := (ActiveOf(a + [v] + b, now), ActiveOf(a + b, now));
            && Sum(with) == Sum(without) + v.stake
            && SumOf(with, voters) == SumOf(without, voters) + if v.address in voters then v.stake else 0
  {
    var (p, q) := (ActiveOf(a, now), ActiveOf(b, now));
    ActiveConcat(a + [v], b, now);
    ActiveConcat(a, [v], now);
    ActiveConcat(a, b, now);
    assert ActiveOf([v], now) == [v];
    hide ActiveOf;
    TakeOut(p + [v] + q, |p|, voters);
    assert (p + [v] + q)[..|p|] == p && (p + [v] + q)[|p| + 1..] == q;
  }

  /** An insertion sort in place of the library's: equal stakes may come in another order. */
  method SortByStake(vs: seq<Validator>) returns (r: seq<Validator>)
    ensures ByStake(r) && multiset(r) == multiset(vs)
  {
    hide ByStake;
    r := [];
    assert ByStake(r) by { OneIsSorted(); }
    for k := 0 to |vs|
      invariant ByStake(r) && multiset(r) == multiset(vs[..k])
    {
      assert vs[..k + 1] == vs[..k] + [vs[k]];
      r := Insert(r, vs[k]);
    }
    assert vs[..|vs|] == vs;
  }

  lemma OneIsSorted()
    ensures ByStake([])
  {
  }

  method Insert(sorted: seq<Validator>, v: Validator) returns (r: seq<Validator>)
    requires ByStake(sorted)
    ensures ByStake(r) && multiset(r) == multiset(sorted) + multiset{v}
  {
    hide ByStake;
    var i := 0;
    while i < |sorted| && sorted[i].stake >= v.stake
      invariant 0 <= i <= |sorted|
      invariant forall j :: 0 <= j < i ==> sorted[j].stake >= v.stake
    {
      i := i + 1;
    }
    r := sorted[..i] + [v] + sorted[i..];
    assert sorted == sorted[..i] + sorted[i..];
    InsertedInOrder(sorted, i, v);
  }

  lemma InsertedInOrder(sorted: seq<Validator>, i: nat, v: Validator)
    requires i <= |sorted| && ByStake(sorted)
    requires forall j :: 0 <= j < i ==> sorted[j].stake >= v.stake
    requires i < |sorted| ==> sorted[i].stake <= v.stake
    ensures ByStake(sorted[..i] + [v] + sorted[i..])
  {
  }

  /** The sum of some stakes, in a 64-bit word. */
  method AddStakes(vs: seq<Validator>) returns (total: nat)
    ensures total == Sum(vs) % TWO_64
  {
    total := 0;
    for i := 0 to |vs|
      invariant total == Sum(vs[..i]) % TWO_64
    {
      SumNext(vs, i);
      WrapAdd(Sum(vs[..i]), vs[i].stake);
      total := (total + vs[i].stake) % TWO_64;
    }
    assert vs[..|vs|] == vs;
  }

  class ValidatorSet {
    var validators: seq<Validator>
    var totalStake: nat

    ghost predicate Valid()
      reads this
    {
      Unique(validators) && totalStake == Sum(validators) % TWO_64
    }

    constructor ()
      ensures Valid() && validators == []
    {
      validators, totalStake := [], 0;
    }

    /** Inserts a validator, or replaces the one at its address. */
    method Add(v: Validator)
      requires Valid()
      modifies this
      ensures Valid()
      ensures forall w :: w in validators ==> w == v || (w in old(validators) && w.address != v.address)
      ensures forall w :: w in old(validators) && w.address != v.address ==> w in validators
      ensures v in validators
    {
      hide Sum;
      for i := 0 to |validators|
        invariant validators == old(validators) && totalStake == old(totalStake)
        invariant forall j :: 0 <= j < i ==> validators[j].address != v.address
      {
        var existing := validators[i];
        if existing.address == v.address {
          Replaced(validators, i, v);
          WrapAdd(Sum(validators), -(existing.stake as int));
          WrapAdd(Sum(validators) - existing.stake, v.stake);
          totalStake := (totalStake - existing.stake) % TWO_64;
          validators := validators[i := v];
          totalStake := (totalStake + v.stake) % TWO_64;
          return;
        }
      }
      Appended(validators, v);
      WrapAdd(Sum(validators), v.stake);
      validators := validators + [v];
      totalStake := (totalStake + v.stake) % TWO_64;
    }

    method Remove(addr: Address)
      requires Valid()
      modifies this
      ensures Valid()
      ensures forall w :: w in validators ==> w in old(validators) && w.address != addr
      ensures forall w :: w in old(validators) && w.address != addr ==> w in validators
    {
      hide Sum;
      for i := 0 to |validators|
        invariant validators == old(validators) && totalStake == old(totalStake)
        invariant forall j :: 0 <= j < i ==> validators[j].address != addr
      {
        var v := validators[i];
        if v.address == addr {
          Removed(validators, i);
          WrapAdd(Sum(validators), -(v.stake as int));
          totalStake := (totalStake - v.stake) % TWO_64;
          validators := validators[..i] + validators[i + 1..];
          return;
        }
      }
    }

    /** The validators that are not in jail, best stake first. */
    method ActiveValidators(now: int) returns (active: seq<Validator>)
      ensures multiset(active) == multiset(ActiveOf(validators, now))
      ensures forall i, j :: 0 <= i < j < |active| ==> active[i].stake >= active[j].stake
    {
      active := OutOfJail(now);
      hide ActiveOf;
      active := SortByStake(active);
    }

    method OutOfJail(now: int) returns (active: seq<Validator>)
      ensures active == ActiveOf(validators, now)
    {
      active := [];
      assert ActiveOf(validators[..0], now) == [];
      hide ActiveOf;
      for i := 0 to |validators|
        invariant active == ActiveOf(validators[..i], now)
      {
        ActiveAppend(validators[..i], validators[i], now);
        assert validators[..i + 1] == validators[..i] + [validators[i]];
        if IsActive(validators[i], now) { active := active + [validators[i]]; }
      }
      assert validators[..|validators|] == validators;
    }

    method TotalActiveStake(now: int) returns (total: nat)
      ensures total == Sum(ActiveOf(validators, now)) % TWO_64
    {
      var active := ActiveValidators(now);
      SumOfPermuted(active, ActiveOf(validators, now), {});
      total := AddStakes(active);
    }
  }

  /** Wrapping at each addition is wrapping once at the end. */
  lemma WrapAdd(s: int, x: int)
    ensures (s % TWO_64 + x) % TWO_64 == (s + x) % TWO_64
  {
  }

  lemma SumNext(vs: seq<Validator>, i: nat)
    requires i < |vs|
    ensures Sum(vs[..i + 1]) == Sum(vs[..i]) + vs[i].stake
  {
    assert vs[..i + 1] == vs[..i] + [vs[i]];
    SumAppend(vs[..i], [vs[i]]);
    assert Sum([vs[i]]) == vs[i].stake + Sum([]);
  }

  lemma Replaced(vs: seq<Validator>, i: nat, v: Validator)
    requires i < |vs| && Unique(vs) && vs[i].address == v.address
    ensures Unique(vs[i := v]) && Sum(vs[i := v]) == Sum(vs) - vs[i].stake + v.stake
    ensures vs[i := v][i] == v
    ensures forall w :: w in vs[i := v] ==> w == v || (w in vs && w.address != v.address)
    ensures forall w :: w in vs && w.address != v.address ==> w in vs[i := v]
  {
    var after := vs[i := v];
    TakeOut(vs, i, {});
    TakeOut(after, i, {});
    assert vs[..i] + vs[i + 1..] == after[..i] + after[i + 1..];
    forall w | w in vs && w.address != v.address
      ensures w in after
    {
      var j :| 0 <= j < |vs| && vs[j] == w;
      assert after[j] == w;
    }
  }

  lemma Appended(vs: seq<Validator>, v: Validator)
    requires Unique(vs) && forall j :: 0 <= j < |vs| ==> vs[j].address != v.address
    ensures Unique(vs + [v]) && Sum(vs + [v]) == Sum(vs) + v.stake
    ensures forall w :: w in vs ==> w.address != v.address
  {
    SumAppend(vs, [v]);
    assert Sum([v]) == v.stake + Sum([]);
  }

  lemma Removed(vs: seq<Validator>, i: nat)
    requires i < |vs| && Unique(vs)
    ensures var after := vs[..i] + vs[i + 1..];
            && Unique(after) && Sum(after) == Sum(vs) - vs[i].stake
            && (forall w :: w in after ==> w in vs && w.address != vs[i].address)
            && (forall w :: w in vs && w.address != vs[i].address ==> w in after)
  {
    TakeOut(vs, i, {});
    hide Sum;
    var after := vs[..i] + vs[i + 1..];
    forall w | w in vs && w.address != vs[i].address
      ensures w in after
    {
      var j :| 0 <= j < |vs| && vs[j] == w;
      assert after[if j < i then j else j - 1] == w;
    }
  }

  // ----- Votes -----

  datatype VoteType = Prevote | Precommit

  datatype Vote = Vote(voteType: VoteType, height: Uint64, round: nat, blockHash: Hash, validator: Address)

  type Votes = map<Address, Vote>

  /** The validators whose recorded vote is for the block. */
  function Voters(votes: Votes, blockHash: Hash): set<Address> {
    set a | a in votes && votes[a].blockHash == blockHash
  }

  function Record(votes: Votes, vote: Vote): Votes { votes[vote.validator := vote] }

  /** One validator more has voted: its stake is added if it is active. */
  lemma VoterCounted(active: seq<Validator>, p: seq<Validator>, who: set<Address>, a: Address, i: nat)
    requires Unique(active) && multiset(p) == multiset(active) && a !in who && i <= |p|
    requires if i < |p| then p[i].address == a else forall j :: 0 <= j < |p| ==> p[j].address != a
    ensures SumOf(active, who + {a}) == SumOf(active, who) + if i < |p| then p[i].stake else 0
  {
    hide Sum, SumOf;
    if i < |p| {
      assert p[i] in multiset(p) && p[i] in multiset(active);
      var j :| 0 <= j < |active| && active[j] == p[i];
      SumOfOne(active, j, who);
    } else {
      SumOfUnion(active, who, {a});
      assert who * {a} == {};
      SumOfNone(active, {});
      forall v | v in active
        ensures v.address != a
      {
        assert v in multiset(active) && v in multiset(p);
      }
      SumOfNone(active, {a});
    }
  }

  class VoteSet {
    const height: Uint64
    const round: nat
    const voteType: VoteType
    const validators: ValidatorSet
    var votes: Votes

    ghost predicate Valid()
      reads this, validators
    {
      && validators.Valid()
      && forall a :: a in votes ==> votes[a].validator == a
    }

    constructor (height: Uint64, round: nat, voteType: VoteType, validators: ValidatorSet)
      requires validators.Valid()
      ensures Valid() && votes == map[] && this.validators == validators
      ensures this.height == height && this.round == round && this.voteType == voteType
    {
      this.height, this.round, this.voteType, this.validators := height, round, voteType, validators;
      votes := map[];
    }

    /** A vote for another height, round or type is refused. */
    method Add(vote: Vote) returns (ok: bool)
      requires Valid()
      modifies `votes
      ensures Valid()
      ensures ok == (vote.height == height && vote.round == round && vote.voteType == voteType)
      ensures votes == if ok then old(votes)[vote.validator := vote] else old(votes)
    {
      if vote.height != height || vote.round != round || vote.voteType != voteType { return false; }
      votes := votes[vote.validator := vote];
      return true;
    }

    /** Whether more than two thirds of the active stake, in 64-bit sums and double precision, voted for the block. */
    method HasQuorum(blockHash: Hash, now: int) returns (r: bool)
      requires Valid()
      ensures r == Verdict(ActiveOf(validators.validators, now), Voters(votes, blockHash))
    {
      var totalStake := validators.TotalActiveStake(now);
      if totalStake == 0 { return false; }
      var votedStake := VotedStake(blockHash, now);
      r := Float64.ExceedsTwoThirds(votedStake, totalStake);
    }

    /** The nested loop: for every vote for the block, the stake of the active validator that cast it. */
    method VotedStake(blockHash: Hash, now: int) returns (voted: nat)
      requires Valid()
      ensures voted == SumOf(ActiveOf(validators.validators, now), Voters(votes, blockHash)) % TWO_64
    {
      ghost var active := ActiveOf(validators.validators, now);
      ActiveUnique(validators.validators, now);
      SumOfNone(active, {});
      hide SumOf, ActiveOf, Unique, Voters;
      voted := 0;
      ghost var done: set<Address> := {};
      var todo := votes.Keys;
      AllToDo(votes, blockHash);
      while todo != {}
        invariant todo <= votes.Keys && done == Voters(votes, blockHash) - todo
        invariant voted == SumOf(active, done) % TWO_64
        decreases todo
      {
        var k :| k in todo;
        var vote := votes[k];
        NextVote(votes, blockHash, todo, k);
        if vote.blockHash == blockHash {
          var stake := StakeAt(vote.validator, now, active, done);
          WrapAdd(SumOf(active, done), stake);
          voted := (voted + stake) % TWO_64;
          done := done + {k};
        }
        todo := todo - {k};
      }
      assert done == Voters(votes, blockHash);
    }

    /** The inner loop: the stake of the first active validator at the address, if there is one. */
    method StakeAt(a: Address, now: int, ghost active: seq<Validator>, ghost who: set<Address>) returns (stake: Amount)
      requires active == ActiveOf(validators.validators, now) && Unique(active) && a !in who
      ensures SumOf(active, who + {a}) == SumOf(active, who) + stake
    {
      hide SumOf, ActiveOf, Unique, ByStake;
      var p := validators.ActiveValidators(now);
      var i := 0;
      while i < |p| && p[i].address != a
        invariant 0 <= i <= |p| && forall j :: 0 <= j < i ==> p[j].address != a
      {
        i := i + 1;
      }
      VoterCounted(active, p, who, a, i);
      return if i < |p| then p[i].stake else 0;
    }
  }

  lemma AllToDo(votes: Votes, blockHash: Hash)
    ensures Voters(votes, blockHash) - votes.Keys == {}
  {
  }

  lemma NextVote(votes: Votes, blockHash: Hash, todo: set<Address>, k: Address)
    requires k in todo && k in votes
    ensures Voters(votes, blockHash) - (todo - {k})
         == Voters(votes, blockHash) - todo + if votes[k].blockHash == blockHash then {k} else {}
  {
  }

  // ----- Finality -----

  datatype BlockHeader = BlockHeader(
    height: Uint64, parentHash: Hash, stateRoot: Hash, txRoot: Hash, receiptRoot: Hash, timestamp: Int64,
    chainID: Uint64, proposer: Address, gasLimit: Uint64, gasUsed: Uint64, baseFeeGST: Uint64)

  /** What is hashed: seven of the eleven fields. */
  function Preimage(h: BlockHeader): seq<Byte> {
    BigEndian(h.height, 8) + h.parentHash + h.stateRoot + h.txRoot +
    BigEndian(h.timestamp % TWO_64, 8) + BigEndian(h.chainID, 8) + h.proposer
  }

  /** Where each field stands among the 140 hashed bytes. */
  lemma PreimageLayout(h: BlockHeader)
    ensures var bytes := Preimage(h);
            && |bytes| == 140
            && bytes[..8] == BigEndian(h.height, 8) && bytes[8..40] == h.parentHash
            && bytes[40..72] == h.stateRoot && bytes[72..104] == h.txRoot
            && bytes[104..112] == BigEndian(if h.timestamp < 0 then h.timestamp + TWO_64 else h.timestamp, 8)
            && bytes[112..120] == BigEndian(h.chainID, 8) && bytes[120..] == h.proposer
  {
    hide BigEndian;
    assert h.timestamp % TWO_64 == if h.timestamp < 0 then h.timestamp + TWO_64 else h.timestamp;
  }

  /** The headers agree on what is hashed: receipt root, gas limit, gas used and base fee may differ. */
  predicate SameHashed(a: BlockHeader, b: BlockHeader) {
    && a.height == b.height && a.parentHash == b.parentHash && a.stateRoot == b.stateRoot && a.txRoot == b.txRoot
    && a.timestamp == b.timestamp && a.chainID == b.chainID && a.proposer == b.proposer
  }

  lemma PreimageExact(a: BlockHeader, b: BlockHeader)
    ensures Preimage(a) == Preimage(b) <==> SameHashed(a, b)
  {
    if Preimage(a) == Preimage(b) {
      hide BigEndian;
      var (h, t, c) := (a.height, a.timestamp % TWO_64, a.chainID);
      var (h', t', c') := (b.height, b.timestamp % TWO_64, b.chainID);
      var (p1, q1) := (BigEndian(h, 8) + a.parentHash, BigEndian(h', 8) + b.parentHash);
      var (p2, q2) := (p1 + a.stateRoot, q1 + b.stateRoot);
      var (p3, q3) := (p2 + a.txRoot, q2 + b.txRoot);
      var (p4, q4) := (p3 + BigEndian(t, 8), q3 + BigEndian(t', 8));
      var (p5, q5) := (p4 + BigEndian(c, 8), q4 + BigEndian(c', 8));
      CancelLast(p5, a.proposer, q5, b.proposer);
      CancelLast(p4, BigEndian(c, 8), q4, BigEndian(c', 8));
      CancelLast(p3, BigEndian(t, 8), q3, BigEndian(t', 8));
      CancelLast(p2, a.txRoot, q2, b.txRoot);
      CancelLast(p1, a.stateRoot, q1, b.stateRoot);
      CancelLast(BigEndian(h, 8), a.parentHash, BigEndian(h', 8), b.parentHash);
      EightBytes();
      BigEndianInjective(h, h', 8);
      BigEndianInjective(t, t', 8);
      BigEndianInjective(c, c', 8);
      SameSigned(a.timestamp, b.timestamp);
    }
  }

  lemma SameSigned(x: Int64, y: Int64)
    requires x % TWO_64 == y % TWO_64
    ensures x == y
  {
  }

  datatype FinalizedBlock = FinalizedBlock(header: BlockHeader, precommits: seq<Vote>, finalizedAt: int)

  type HashFunction = seq<Byte> -> Hash

  /** The certificate lists the votes for the block, each once. */
  ghost predicate Certifies(cert: seq<Vote>, votes: Votes, blockHash: Hash) {
    && (forall i, j :: 0 <= i < j < |cert| ==> cert[i].validator != cert[j].validator)
    && (forall v :: v in cert <==> v.validator in votes && votes[v.validator] == v && v.blockHash == blockHash)
  }

  /** A block is finalized exactly when its hash has a quorum among the precommits. */
  method Finalize(hash: HashFunction, header: BlockHeader, precommits: VoteSet, now: int)
    returns (r: Option<FinalizedBlock>)
    requires precommits.Valid()
    ensures r.Some? <==>
      Verdict(ActiveOf(precommits.validators.validators, now), Voters(precommits.votes, hash(Preimage(header))))
    ensures r.Some? ==>
      r.value.header == header && r.value.finalizedAt == now && Certifies(r.value.precommits, precommits.votes, hash(Preimage(header)))
  {
    hide Verdict, ActiveOf, Voters, Preimage;
    var blockHash := hash(Preimage(header));
    var quorum := precommits.HasQuorum(blockHash, now);
    if !quorum { return None; }
    var cert: seq<Vote> := [];
    var todo := precommits.votes.Keys;
    while todo != {}
      invariant todo <= precommits.votes.Keys
      invariant forall i, j :: 0 <= i < j < |cert| ==> cert[i].validator != cert[j].validator
      invariant forall v :: v in cert <==>
        v.validator in precommits.votes.Keys - todo && precommits.votes[v.validator] == v && v.blockHash == blockHash
      decreases todo
    {
      var k :| k in todo;
      var v := precommits.votes[k];
      if v.blockHash == blockHash { cert := cert + [v]; }
      todo := todo - {k};
    }
    r := Some(FinalizedBlock(header, cert, now));
  }

  // ----- Safety -----

  /** Who voted for the one block in the one set and for the other in the other. */
  function VotedBoth(v1: Votes, h1: Hash, v2: Votes, h2: Hash): set<Address> {
    Voters(v1, h1) * Voters(v2, h2)
  }

  lemma OneVoteEach(votes: Votes, h1: Hash, h2: Hash)
    ensures h1 != h2 ==> Voters(votes, h1) * Voters(votes, h2) == {}
  {
  }

  /** One vote set never has a quorum for two blocks. */
  lemma OneQuorumPerSet(active: seq<Validator>, votes: Votes, h1: Hash, h2: Hash)
    requires Sum(active) < TWO_64
    requires Verdict(active, Voters(votes, h1)) && Verdict(active, Voters(votes, h2))
    ensures h1 == h2
  {
    hide Verdict, Sum, SumOf, Voters;
    OneVoteEach(votes, h1, h2);
    QuorumsOverlap(active, Voters(votes, h1), Voters(votes, h2));
    SumOfNone(active, {});
  }

  /**
   Two finalized headers, certified by vote sets over the same active validators:
   if they differ in anything that is hashed, the validators that voted for both
   hold a third of the active stake, up to rounding, and strictly more for a stake
   of at most 2^53.
   */
  lemma ConflictingFinality(hash: HashFunction, a: BlockHeader, b: BlockHeader, active: seq<Validator>, v1: Votes, v2: Votes)
    requires Sum(active) < TWO_64
    requires hash(Preimage(a)) == hash(Preimage(b)) ==> Preimage(a) == Preimage(b)
    requires Verdict(active, Voters(v1, hash(Preimage(a)))) && Verdict(active, Voters(v2, hash(Preimage(b))))
    ensures SameHashed(a, b) || (hash(Preimage(a)) != hash(Preimage(b))
      && AThird(active, VotedBoth(v1, hash(Preimage(a)), v2, hash(Preimage(b)))))
    ensures SameHashed(a, b) || v1 != v2
  {
    hide Verdict, AThird, Preimage, Voters;
    PreimageExact(a, b);
    QuorumsOverlap(active, Voters(v1, hash(Preimage(a))), Voters(v2, hash(Preimage(b))));
    if v1 == v2 { OneQuorumPerSet(active, v1, hash(Preimage(a)), hash(Preimage(b))); }
  }

  /** If all active validators have last voted for a block, it has a quorum. */
  lemma AllVotesDecide(active: seq<Validator>, votes: Votes, h: Hash)
    requires 0 < Sum(active) < TWO_64
    requires forall v :: v in active ==> v.address in votes && votes[v.address].blockHash == h
    ensures Verdict(active, Voters(votes, h))
  {
    assert Addresses(active) <= Voters(votes, h);
    hide Verdict, Sum, Addresses, Voters;
    UnanimousQuorum(active);
    QuorumGrows(active, Addresses(active), Voters(votes, h));
  }

  /** Only the votes for it count, whoever else has voted. */
  lemma OtherVotesDoNotCount(votes: Votes, a: Address, h: Hash)
    ensures a in Voters(votes, h) <==> a in votes && votes[a].blockHash == h
    ensures forall v: Vote :: v.validator == a && v.blockHash != h ==> Voters(Record(votes, v), h) == Voters(votes, h) - {a}
    ensures forall v: Vote :: v.validator == a && v.blockHash == h ==> Voters(Record(votes, v), h) == Voters(votes, h) + {a}
  {
  }

  function RecordAll(votes: Votes, more: seq<Vote>): Votes
    decreases |more|
  {
    if more == [] then votes else RecordAll(Record(votes, more[0]), more[1..])
  }

  /** Nobody who has voted votes for another block. */
  predicate NobodySwitches(votes: Votes, more: seq<Vote>)
    decreases |more|
  {
    more == [] || (
      && (more[0].validator in votes ==> votes[more[0].validator].blockHash == more[0].blockHash)
      && NobodySwitches(Record(votes, more[0]), more[1..]))
  }

  /** A quorum, once reached, stays while nobody changes its vote. */
  lemma {:induction false} QuorumStays(active: seq<Validator>, votes: Votes, more: seq<Vote>, h: Hash)
    requires Sum(active) < TWO_64 && Verdict(active, Voters(votes, h)) && NobodySwitches(votes, more)
    ensures Verdict(active, Voters(RecordAll(votes, more), h))
    decreases |more|
  {
    if more != [] {
      var next := Record(votes, more[0]);
      assert Voters(votes, h) <= Voters(next, h);
      QuorumGrows(active, Voters(votes, h), Voters(next, h));
      QuorumStays(active, next, more[1..], h);
    }
  }
}
