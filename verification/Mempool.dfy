/**
 The pending transaction pool: a heap ordered by effective tip and an index by
 hash that must agree. Every operation keeps `Valid`, and says what becomes of
 the index; block selection returns the best transactions, best first.
 */
module Mempool {
  import opened Prelude
  import opened TxHeap

  const MAX_MEMPOOL_SIZE: nat := 10_000
  const MAX_TX_SIZE: nat := 128 * 1024

  datatype AddError = DataTooLarge | NoGas | InvalidMaxFee | FeeBelowBase | WrongChain | Duplicate | Full

  type Index = map<Hash, Transaction>

  /** The index holds exactly the transactions of the heap, each once, under its own hash. */
  ghost predicate Consistent(index: Index, txs: multiset<Transaction>) {
    && (forall t :: t in txs ==> txs[t] == 1 && t.hash in index && index[t.hash] == t)
    && (forall h :: h in index ==> index[h].hash == h && index[h] in txs)
  }

  ghost predicate Distinct(txs: seq<Transaction>) {
    forall i, j :: 0 <= i < j < |txs| ==> txs[i].hash != txs[j].hash
  }

  /** The same, said of a list. */
  ghost predicate Indexed(index: Index, txs: seq<Transaction>) {
    && Distinct(txs)
    && (forall t :: t in txs ==> t.hash in index && index[t.hash] == t)
    && (forall h :: h in index ==> index[h].hash == h && index[h] in txs)
  }

  lemma {:induction false} CountDistinct(txs: seq<Transaction>, t: Transaction)
    requires Distinct(txs) && t in txs
    ensures multiset(txs)[t] == 1
    decreases |txs|
  {
    var (rest, last) := (txs[..|txs| - 1], txs[|txs| - 1]);
    assert txs == rest + [last];
    if t in rest { CountDistinct(rest, t); }
  }

  lemma IndexedIsConsistent(index: Index, txs: seq<Transaction>)
    ensures Indexed(index, txs) <==> Consistent(index, multiset(txs))
  {
    assert forall t :: t in txs <==> t in multiset(txs);
    if Indexed(index, txs) {
      forall t | t in txs
        ensures multiset(txs)[t] == 1
      {
        CountDistinct(txs, t);
      }
    }
    if Consistent(index, multiset(txs)) { SinglyIsDistinct(index, txs); }
  }

  lemma SinglyIsDistinct(index: Index, txs: seq<Transaction>)
    requires Consistent(index, multiset(txs))
    ensures Distinct(txs)
  {
    forall i, j | 0 <= i < j < |txs|
      ensures txs[i].hash != txs[j].hash
    {
      var t := txs[j];
      assert txs == txs[..j] + [t] + txs[j + 1..];
      assert multiset(txs) == multiset(txs[..j]) + multiset{t} + multiset(txs[j + 1..]);
      assert txs[i] in multiset(txs) && t in multiset(txs) && multiset(txs)[t] == 1;
      assert t !in multiset(txs[..j]) && txs[i] in multiset(txs[..j]);
    }
  }

  lemma {:induction false} SizesAgree(index: Index, txs: seq<Transaction>)
    requires Indexed(index, txs)
    ensures |index| == |txs|
    decreases |txs|
  {
    if txs == [] {
      assert forall h :: h !in index;
    } else {
      var (rest, last) := (txs[..|txs| - 1], txs[|txs| - 1]);
      LastOut(index, txs);
      SizesAgree(index - {last.hash}, rest);
      assert index.Keys == (index - {last.hash}).Keys + {last.hash};
    }
  }

  lemma LastOut(index: Index, txs: seq<Transaction>)
    requires Indexed(index, txs) && txs != []
    ensures var last := txs[|txs| - 1]; last.hash in index && Indexed(index - {last.hash}, txs[..|txs| - 1])
  {
    var (rest, last) := (txs[..|txs| - 1], txs[|txs| - 1]);
    assert txs == rest + [last];
    forall t | t in rest
      ensures t.hash != last.hash
    {
      var j :| 0 <= j < |rest| && rest[j] == t;
      assert txs[j].hash != txs[|rest|].hash;
    }
  }

  /** `kept` is what a scan of the first i transactions keeps. */
  ghost predicate Sifted(txs: seq<Transaction>, i: nat, keep: set<Transaction>, kept: seq<Transaction>)
    requires i <= |txs|
  {
    && |kept| <= i
    && Distinct(kept)
    && (forall t :: t in kept ==> t in txs[..i] && t in keep)
    && (forall t :: t in txs[..i] && t in keep ==> t in kept)
  }

  lemma SiftedStep(txs: seq<Transaction>, i: nat, keep: set<Transaction>, kept: seq<Transaction>)
    requires i < |txs| && Distinct(txs) && Sifted(txs, i, keep, kept)
    ensures Sifted(txs, i + 1, keep, if txs[i] in keep then kept + [txs[i]] else kept)
  {
    assert txs[..i + 1] == txs[..i] + [txs[i]];
    assert forall t :: t in kept ==> t.hash != txs[i].hash by {
      forall t | t in kept
        ensures t.hash != txs[i].hash
      {
        var j :| 0 <= j < i && txs[j] == t;
      }
    }
  }

  ghost function Kept(index: Index, keep: set<Transaction>): Index {
    map h | h in index && index[h] in keep :: index[h]
  }

  ghost function ReceivedAfter(index: Index, cutoff: int): Index
    reads set h | h in index :: index[h]
  {
    map h | h in index && index[h].receivedAt > cutoff :: index[h]
  }

  lemma StillReceivedAfter(index: Index, cutoff: int)
    ensures forall h :: h in ReceivedAfter(index, cutoff) <==> h in index && index[h].receivedAt > cutoff
  {
  }

  lemma SiftedAll(index: Index, txs: seq<Transaction>, keep: set<Transaction>, kept: seq<Transaction>)
    requires Indexed(index, txs) && Sifted(txs, |txs|, keep, kept)
    ensures Indexed(Kept(index, keep), kept)
  {
  }

  /** What deleting the unkept ones among the first i leaves of the index. */
  ghost function Deleted(index: Index, txs: seq<Transaction>, i: nat, keep: set<Transaction>): Index
    requires i <= |txs|
  {
    map h | h in index && (index[h] in keep || index[h] !in txs[..i]) :: index[h]
  }

  lemma DeletedStep(index: Index, txs: seq<Transaction>, i: nat, keep: set<Transaction>)
    requires i < |txs| && Indexed(index, txs)
    ensures Deleted(index, txs, i + 1, keep)
         == if txs[i] in keep then Deleted(index, txs, i, keep) else Deleted(index, txs, i, keep) - {txs[i].hash}
  {
  }

  lemma NothingSifted(index: Index, txs: seq<Transaction>, keep: set<Transaction>)
    requires Indexed(index, txs)
    ensures Distinct(txs) && Sifted(txs, 0, keep, []) && Deleted(index, txs, 0, keep) == index
  {
  }

  lemma DeletedAll(index: Index, txs: seq<Transaction>, keep: set<Transaction>)
    requires Indexed(index, txs)
    ensures Deleted(index, txs, |txs|, keep) == Kept(index, keep)
  {
  }

  /** A finished scan, and the index without what it did not keep, agree again. */
  lemma ScanDone(index: Index, txs: seq<Transaction>, keep: set<Transaction>, kept: seq<Transaction>)
    requires Indexed(index, txs) && Sifted(txs, |txs|, keep, kept)
    ensures var after := Deleted(index, txs, |txs|, keep);
            Consistent(after, multiset(kept)) && |after| == |kept| <= |txs|
    ensures forall t :: t in kept ==> t in txs
    ensures Deleted(index, txs, |txs|, keep) == Kept(index, keep)
  {
    hide Sifted, Consistent, Distinct;
    var after := Deleted(index, txs, |txs|, keep);
    DeletedAll(index, txs, keep);
    hide Deleted;
    SiftedAll(index, txs, keep, kept);
    hide Indexed;
    IndexedIsConsistent(after, kept);
    SizesAgree(after, kept);
    SiftedFits(txs, keep, kept);
  }

  lemma SiftedFits(txs: seq<Transaction>, keep: set<Transaction>, kept: seq<Transaction>)
    requires Sifted(txs, |txs|, keep, kept)
    ensures |kept| <= |txs| && forall t :: t in kept ==> t in txs
  {
  }

  /** Dropping one hash is keeping every transaction but the one under it. */
  lemma DropHash(index: Index, txs: seq<Transaction>, hash: Hash, keep: set<Transaction>)
    requires Indexed(index, txs)
    requires keep == set t | t in txs && t.hash != hash
    ensures Kept(index, keep) == index - {hash}
  {
  }

  lemma KeepFresh(index: Index, txs: seq<Transaction>, cutoff: int, keep: set<Transaction>)
    requires Indexed(index, txs)
    requires keep == set t | t in txs && t.receivedAt > cutoff
    ensures Kept(index, keep) == ReceivedAfter(index, cutoff)
  {
  }

  lemma Entered(index: Index, txs: multiset<Transaction>, tx: Transaction)
    requires Consistent(index, txs) && tx.hash !in index
    ensures Consistent(index[tx.hash := tx], txs + multiset{tx})
  {
  }

  // ----- Selection -----

  /** Best tip first. */
  ghost predicate BestFirst(s: seq<Transaction>, baseFee: int) {
    && Priced(s)
    && forall i, j :: 0 <= i < j < |s| ==> s[i].EffectiveTip(baseFee) >= s[j].EffectiveTip(baseFee)
  }

  /** Nothing in `rest` has a better tip than anything in `s`. */
  ghost predicate Outbids(s: seq<Transaction>, rest: multiset<Transaction>, baseFee: int)
    requires Priced(s) && forall t :: t in rest ==> t.maxFee.Some?
  {
    forall i, t :: 0 <= i < |s| && t in rest ==> t.EffectiveTip(baseFee) <= s[i].EffectiveTip(baseFee)
  }

  lemma SelectNext(s: seq<Transaction>, was: multiset<Transaction>, rest: multiset<Transaction>, x: Transaction, baseFee: int)
    requires was == rest + multiset{x}
    requires forall t :: t in was ==> t.maxFee.Some?
    requires BestFirst(s, baseFee) && Outbids(s, was, baseFee)
    requires forall t :: t in rest ==> t.EffectiveTip(baseFee) <= x.EffectiveTip(baseFee)
    ensures BestFirst(s + [x], baseFee) && Outbids(s + [x], rest, baseFee)
  {
  }

  lemma PricedAll(txs: seq<Transaction>)
    requires Priced(txs)
    ensures forall t :: t in multiset(txs) ==> t.maxFee.Some?
  {
  }

  /** No transaction is selected twice. */
  lemma PartIsDistinct(index: Index, part: seq<Transaction>, txs: multiset<Transaction>)
    requires Consistent(index, txs) && multiset(part) <= txs
    ensures Distinct(part)
  {
    forall i, j | 0 <= i < j < |part|
      ensures part[i].hash != part[j].hash
    {
      var t := part[j];
      assert part == part[..j] + [t] + part[j + 1..];
      assert multiset(part) == multiset(part[..j]) + multiset{t} + multiset(part[j + 1..]);
      assert part[i] in multiset(part) && t in multiset(part) && txs[t] == 1;
      assert t !in multiset(part[..j]) && part[i] in multiset(part[..j]);
    }
  }

  /** A call that changes the pool, with the time it is made. */
  datatype Call = Enter(tx: Transaction, now: int) | Drop(hash: Hash) | Age(now: int, maxAge: int) | Reprice(baseFee: int)

  function Entering(calls: seq<Call>): set<Transaction> {
    set c | c in calls && c.Enter? :: c.tx
  }

  class Mempool {
    const pending: Heap
    var index: Index
    var baseFee: int

    ghost predicate Valid()
      reads this, pending
    {
      && pending.baseFee == baseFee
      && Priced(pending.txs) && IsHeap(pending.txs, baseFee, |pending.txs|)
      && Consistent(index, multiset(pending.txs))
      && |pending.txs| <= MAX_MEMPOOL_SIZE
    }

    constructor (baseFee: int)
      ensures Valid() && fresh(pending) && index == map[] && this.baseFee == baseFee
    {
      pending := new Heap([], baseFee);
      index, this.baseFee := map[], baseFee;
    }

    /** What is wrong with a transaction on its own, the first check that fails. */
    function Validate(tx: Transaction): Option<AddError>
      reads this
    {
      if tx.dataLen > MAX_TX_SIZE then Some(DataTooLarge)
      else if tx.gasLimit == 0 then Some(NoGas)
      else if tx.maxFee.None? || tx.maxFee.value < 0 then Some(InvalidMaxFee)
      else if tx.maxFee.value < baseFee then Some(FeeBelowBase)
      else if tx.chainID != 14000101 && tx.chainID != 901 && tx.chainID != 903 then Some(WrongChain)
      else None
    }

    /** What a transaction must have, and what is said of one that has not, the first lack in this order. */
    lemma ValidateIs(tx: Transaction)
      ensures var (small, gas) := (tx.dataLen <= 131_072, tx.gasLimit > 0);
              var (priced, covered) := (tx.maxFee.Some? && tx.maxFee.value >= 0, tx.maxFee.Some? && tx.maxFee.value >= baseFee);
              var known := tx.chainID in {14_000_101, 901, 903};
              && (Validate(tx) == None <==> small && gas && priced && covered && known)
              && (Validate(tx) == Some(DataTooLarge) <==> !small)
              && (Validate(tx) == Some(NoGas) <==> small && !gas)
              && (Validate(tx) == Some(InvalidMaxFee) <==> small && gas && !priced)
              && (Validate(tx) == Some(FeeBelowBase) <==> small && gas && priced && !covered)
              && (Validate(tx) == Some(WrongChain) <==> small && gas && priced && covered && !known)
    {
    }

    /** What the index knows about the heap. */
    lemma Agree()
      requires Valid()
      ensures Indexed(index, pending.txs) && |index| == |pending.txs| <= MAX_MEMPOOL_SIZE
      ensures pending.baseFee == baseFee && forall t :: t in pending.txs ==> t.maxFee.Some?
    {
      IndexedIsConsistent(index, pending.txs);
      SizesAgree(index, pending.txs);
    }

    method Add(tx: Transaction, now: int) returns (r: Option<AddError>)
      requires Valid()
      modifies `index, pending`txs, tx
      ensures Valid()
      ensures r == if old(Validate(tx)).Some? then old(Validate(tx))
                   else if tx.hash in old(index) then Some(Duplicate)
                   else if |old(index)| >= 10_000 then Some(Full)
                   else None
      ensures r.None? ==> index == old(index)[tx.hash := tx] && tx.receivedAt == now
      ensures r.Some? ==> index == old(index) && unchanged(tx)
    {
      hide Indexed, IsHeap, Consistent;
      Agree();
      r := Validate(tx);
      if r.Some? { return; }
      if tx.hash in index { return Some(Duplicate); }
      if |pending.txs| >= MAX_MEMPOOL_SIZE { return Some(Full); }
      tx.receivedAt := now;
      Entered(index, multiset(pending.txs), tx);
      pending.HeapPush(tx);
      assert |pending.txs| == |multiset(pending.txs)| == |old(pending.txs)| + 1 by {
        assert |multiset(old(pending.txs))| == |old(pending.txs)|;
      }
      index := index[tx.hash := tx];
      return None;
    }

    method Get(hash: Hash) returns (tx: Option<Transaction>)
      requires Valid()
      ensures tx.Some? <==> exists t :: t in pending.txs && t.hash == hash
      ensures tx.Some? ==> tx.value in pending.txs && tx.value.hash == hash
    {
      assert forall t :: t in pending.txs ==> t in multiset(pending.txs);
      if hash in index {
        assert index[hash] in pending.txs;
        return Some(index[hash]);
      }
      return None;
    }

    method Size() returns (n: nat)
      requires Valid()
      ensures n == |index|
    {
      Agree();
      n := |pending.txs|;
    }

    method Remove(hash: Hash)
      requires Valid()
      modifies `index, pending`txs
      ensures Valid()
      ensures index == old(index) - {hash}
    {
      hide Valid, Consistent, Sifted, Indexed, Deleted, Kept;
      Agree();
      ghost var index0 := index;
      ghost var keep := set t | t in pending.txs && t.hash != hash;
      DropHash(index, pending.txs, hash, keep);
      index := index - {hash};
      var remaining := Without(hash, index0, keep);
      ScanDone(index0, pending.txs, keep, remaining);
      Rebuild(remaining);
    }

    /** The scan of Remove. */
    method Without(hash: Hash, ghost index0: Index, ghost keep: set<Transaction>) returns (remaining: seq<Transaction>)
      requires Indexed(index0, pending.txs)
      requires keep == set t | t in pending.txs && t.hash != hash
      ensures Sifted(pending.txs, |pending.txs|, keep, remaining)
    {
      hide Sifted, Indexed, Deleted, Distinct;
      remaining := [];
      NothingSifted(index0, pending.txs, keep);
      for i := 0 to |pending.txs|
        invariant Sifted(pending.txs, i, keep, remaining)
      {
        SiftedStep(pending.txs, i, keep, remaining);
        if pending.txs[i].hash != hash { remaining := remaining + [pending.txs[i]]; }
      }
    }

    /** Put another list in place of the pending one, and heapify. */
    method Rebuild(txs: seq<Transaction>)
      requires pending.baseFee == baseFee && Consistent(index, multiset(txs)) && |txs| <= MAX_MEMPOOL_SIZE
      requires forall t :: t in txs ==> t.maxFee.Some?
      modifies pending`txs
      ensures Valid() && multiset(pending.txs) == multiset(txs)
    {
      hide IsHeap, Consistent;
      pending.txs := txs;
      pending.Init();
      assert |pending.txs| == |multiset(pending.txs)| == |multiset(txs)| == |txs|;
    }

    /** Removes what was received at the cutoff or before. */
    method Purge(now: int, maxAge: int) returns (purged: nat)
      requires Valid()
      modifies `index, pending`txs
      ensures Valid()
      ensures index == old(ReceivedAfter(index, now - maxAge))
      ensures forall h :: h in index <==> h in old(index) && old(index[h].receivedAt) > now - maxAge
      ensures purged == |old(index)| - |index|
    {
      StillReceivedAfter(index, now - maxAge);
      hide Valid, Consistent, Sifted, Indexed, Deleted, Kept, ReceivedAfter;
      Agree();
      ghost var index0 := index;
      var cutoff := now - maxAge;
      ghost var keep := set t | t in pending.txs && t.receivedAt > cutoff;
      KeepFresh(index, pending.txs, cutoff, keep);
      var kept;
      kept, purged := Expire(cutoff, keep);
      ScanDone(index0, pending.txs, keep, kept);
      Rebuild(kept);
    }

    /** The scan of Purge: it deletes from the index as it goes. */
    method Expire(cutoff: int, ghost keep: set<Transaction>) returns (kept: seq<Transaction>, purged: nat)
      requires Indexed(index, pending.txs)
      requires keep == set t | t in pending.txs && t.receivedAt > cutoff
      modifies `index
      ensures Sifted(pending.txs, |pending.txs|, keep, kept)
      ensures index == Deleted(old(index), pending.txs, |pending.txs|, keep)
      ensures |kept| + purged == |pending.txs|
    {
      hide Sifted, Indexed, Deleted, Distinct;
      ghost var txs, index0 := pending.txs, index;
      kept, purged := [], 0;
      NothingSifted(index0, txs, keep);
      for i := 0 to |pending.txs|
        invariant |kept| + purged == i && Sifted(txs, i, keep, kept) && index == Deleted(index0, txs, i, keep)
      {
        SiftedStep(txs, i, keep, kept);
        DeletedStep(index0, txs, i, keep);
        var tx := pending.txs[i];
        if tx.receivedAt > cutoff {
          kept := kept + [tx];
        } else {
          index := index - {tx.hash};
          purged := purged + 1;
        }
      }
    }

    method UpdateBaseFee(baseFee: int)
      requires Valid()
      modifies this, pending
      ensures Valid() && this.baseFee == baseFee && index == old(index)
    {
      hide IsHeap;
      this.baseFee := baseFee;
      pending.baseFee := this.baseFee;
      ghost var was := multiset(pending.txs);
      pending.Init();
      assert |pending.txs| == |multiset(pending.txs)| == |was|;
    }

    /** The best `limit` transactions, or all of them, best first; the pool does not change. */
    method SelectForBlock(limit: int) returns (selected: seq<Transaction>)
      requires Valid() && limit >= 0
      ensures |selected| == if limit < |index| then limit else |index|
      ensures multiset(selected) <= multiset(pending.txs) && Distinct(selected)
      ensures BestFirst(selected, baseFee)
      ensures forall t, s :: t in pending.txs && t !in selected && s in selected ==>
        t.maxFee.Some? && s.maxFee.Some? && t.EffectiveTip(baseFee) <= s.EffectiveTip(baseFee)
    {
      Agree();
      assert Consistent(index, multiset(pending.txs));
      hide Valid, Indexed, Consistent, IsHeap, BestFirst, Outbids, Distinct;
      var h := new Heap(pending.txs, baseFee);
      h.Init();
      PricedAll(h.txs);
      selected := [];
      assert BestFirst(selected, baseFee) && Outbids(selected, multiset(h.txs), baseFee) by { NoneSelected(h.txs, baseFee); }
      while |h.txs| > 0 && |selected| < limit
        invariant fresh(h) && h.baseFee == baseFee && Priced(h.txs) && IsHeap(h.txs, baseFee, |h.txs|)
        invariant |selected| <= limit
        invariant multiset(h.txs) + multiset(selected) == multiset(pending.txs)
        invariant forall t :: t in multiset(h.txs) ==> t.maxFee.Some?
        invariant Priced(selected) && BestFirst(selected, baseFee) && Outbids(selected, multiset(h.txs), baseFee)
        decreases limit - |selected|
      {
        ghost var was := multiset(h.txs);
        var tx := h.HeapPop();
        SelectNext(selected, was, multiset(h.txs), tx, baseFee);
        PricedAll(h.txs);
        selected := selected + [tx];
      }
      PartIsDistinct(index, selected, multiset(pending.txs));
      Sizes(h.txs, selected, pending.txs);
      Rejected(h.txs, selected, pending.txs, baseFee);
    }

    /** In every run the index holds exactly the heap's transactions, within the size limit and in heap order. */
    method Replay(calls: seq<Call>)
      requires Valid()
      modifies this, pending, Entering(calls)
      ensures Valid() && Indexed(index, pending.txs) && |index| == |pending.txs| <= 10_000
      decreases |calls|
    {
      if calls == [] {
        Agree();
      } else {
        hide Valid, Indexed;
        assert Entering(calls[1..]) <= Entering(calls);
        match calls[0] {
          case Enter(tx, now) => var _ := Add(tx, now);
          case Drop(hash) => Remove(hash);
          case Age(now, maxAge) => var _ := Purge(now, maxAge);
          case Reprice(fee) => UpdateBaseFee(fee);
        }
        Replay(calls[1..]);
      }
    }
  }

  lemma NoneSelected(txs: seq<Transaction>, baseFee: int)
    requires Priced(txs)
    ensures BestFirst([], baseFee) && Outbids([], multiset(txs), baseFee)
  {
  }

  lemma Sizes(rest: seq<Transaction>, selected: seq<Transaction>, txs: seq<Transaction>)
    requires multiset(rest) + multiset(selected) == multiset(txs)
    ensures |rest| + |selected| == |txs|
  {
    assert |multiset(rest) + multiset(selected)| == |multiset(txs)|;
  }

  lemma Rejected(rest: seq<Transaction>, selected: seq<Transaction>, txs: seq<Transaction>, baseFee: int)
    requires multiset(rest) + multiset(selected) == multiset(txs)
    requires Priced(selected) && (forall t :: t in multiset(rest) ==> t.maxFee.Some?)
    requires Outbids(selected, multiset(rest), baseFee)
    ensures forall t, s :: t in txs && t !in selected && s in selected ==>
      t.maxFee.Some? && s.maxFee.Some? && t.EffectiveTip(baseFee) <= s.EffectiveTip(baseFee)
  {
    forall t, s | t in txs && t !in selected && s in selected
      ensures t.maxFee.Some? && s.maxFee.Some? && t.EffectiveTip(baseFee) <= s.EffectiveTip(baseFee)
    {
      assert t in multiset(txs) && t !in multiset(selected) && t in multiset(rest);
      var i :| 0 <= i < |selected| && selected[i] == s;
    }
  }
}
