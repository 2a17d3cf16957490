/**
 The mempool's priority queue: the repository's Less, Swap, Push and Pop, under
 the sift-up, sift-down and heapify loops of Go's container/heap.
 */
module TxHeap {
  import opened Prelude

  /** A pending transaction. Only the time of receipt changes after it is built. */
  class Transaction {
    const hash: Hash
    const dataLen: nat
    const gasLimit: nat
    const maxFee: Option<int>  // None is Go's nil
    const priorityFee: int
    const chainID: nat
    var receivedAt: int

    constructor (hash: Hash, dataLen: nat, gasLimit: nat, maxFee: Option<int>, priorityFee: int, chainID: nat)
      ensures this.hash == hash && this.dataLen == dataLen && this.gasLimit == gasLimit
      ensures this.maxFee == maxFee && this.priorityFee == priorityFee && this.chainID == chainID
    {
      this.hash, this.dataLen, this.gasLimit := hash, dataLen, gasLimit;
      this.maxFee, this.priorityFee, this.chainID := maxFee, priorityFee, chainID;
      receivedAt := 0;
    }

    /** The priority fee, capped at what the maximum fee leaves above the base fee. */
    function EffectiveTip(baseFee: int): (tip: int)
      requires maxFee.Some?
      ensures tip <= priorityFee && tip + baseFee <= maxFee.value
      ensures tip == priorityFee || tip + baseFee == maxFee.value
    {
      var tip := maxFee.value - baseFee;
      if tip > priorityFee then priorityFee else tip
    }
  }

  predicate Priced(txs: seq<Transaction>) {
    forall i :: 0 <= i < |txs| ==> txs[i].maxFee.Some?
  }

  function Tip(txs: seq<Transaction>, baseFee: int, i: nat): int
    requires Priced(txs) && i < |txs|
  {
    txs[i].EffectiveTip(baseFee)
  }

  function Parent(j: int): int { (j - 1) / 2 }

  /** No child below `lo`'s subtree, up to n, outbids its parent; the children of `skip` are exempt. */
  ghost predicate Ordered(txs: seq<Transaction>, baseFee: int, lo: int, n: int, skip: int)
    requires Priced(txs) && n <= |txs|
  {
    forall j :: 0 < j < n && lo <= Parent(j) != skip ==> Tip(txs, baseFee, j) <= Tip(txs, baseFee, Parent(j))
  }

  /** No child outbids its parent. */
  ghost predicate IsHeap(txs: seq<Transaction>, baseFee: int, n: int)
    requires Priced(txs) && n <= |txs|
  {
    Ordered(txs, baseFee, 0, n, -1)
  }

  /** The root of a heap has the best tip. */
  lemma {:induction false} RootIsBest(txs: seq<Transaction>, baseFee: int, n: int, j: nat)
    requires Priced(txs) && j < n <= |txs| && IsHeap(txs, baseFee, n)
    ensures Tip(txs, baseFee, j) <= Tip(txs, baseFee, 0)
    decreases j
  {
    if j > 0 { RootIsBest(txs, baseFee, n, Parent(j)); }
  }

  function Swapped<T>(s: seq<T>, i: nat, j: nat): (r: seq<T>)
    requires i < |s| && j < |s|
    ensures |r| == |s|
    ensures multiset(r) == multiset(s)
  {
    s[i := s[j]][j := s[i]]
  }

  // ----- One swap of a sift -----

  /** All in order but for the element at j and its parent; what is below j also fits below j's parent. */
  ghost predicate Rising(txs: seq<Transaction>, baseFee: int, j: int) {
    && Priced(txs) && 0 <= j < |txs|
    && (forall k :: 0 < k < |txs| && k != j ==> Tip(txs, baseFee, k) <= Tip(txs, baseFee, Parent(k)))
    && (forall k :: 0 < k < |txs| && 0 < j == Parent(k) ==> Tip(txs, baseFee, k) <= Tip(txs, baseFee, Parent(j)))
  }

  lemma SwappedTip(txs: seq<Transaction>, baseFee: int, i: nat, j: nat, k: nat)
    requires Priced(txs) && i < |txs| && j < |txs| && k < |txs|
    ensures Priced(Swapped(txs, i, j))
    ensures Tip(Swapped(txs, i, j), baseFee, k) == Tip(txs, baseFee, if k == i then j else if k == j then i else k)
  {
  }

  /** The swap puts every element but the new one to rise below its parent. */
  lemma RisingPair(txs: seq<Transaction>, baseFee: int, j: nat, k: nat)
    requires Rising(txs, baseFee, j) && j > 0 && 0 < k < |txs| && k != Parent(j)
    requires Tip(txs, baseFee, j) > Tip(txs, baseFee, Parent(j))
    ensures Priced(Swapped(txs, Parent(j), j))
    ensures Tip(Swapped(txs, Parent(j), j), baseFee, k) <= Tip(Swapped(txs, Parent(j), j), baseFee, Parent(k))
  {
    SwappedTip(txs, baseFee, Parent(j), j, k);
    SwappedTip(txs, baseFee, Parent(j), j, Parent(k));
    hide Swapped, Tip;
    assert k != j ==> Tip(txs, baseFee, k) <= Tip(txs, baseFee, Parent(k));
  }

  /** What is below the risen element fits below its new parent's parent. */
  lemma RisingGrandchild(txs: seq<Transaction>, baseFee: int, j: nat, k: nat)
    requires Rising(txs, baseFee, j) && j > 0 && 0 < k < |txs| && 0 < Parent(j) == Parent(k)
    requires Tip(txs, baseFee, j) > Tip(txs, baseFee, Parent(j))
    ensures Priced(Swapped(txs, Parent(j), j))
    ensures Tip(Swapped(txs, Parent(j), j), baseFee, k) <= Tip(Swapped(txs, Parent(j), j), baseFee, Parent(Parent(j)))
  {
    var i := Parent(j);
    SwappedTip(txs, baseFee, i, j, k);
    SwappedTip(txs, baseFee, i, j, Parent(i));
    hide Swapped, Tip;
    assert Tip(txs, baseFee, i) <= Tip(txs, baseFee, Parent(i));
    assert k != j ==> Tip(txs, baseFee, k) <= Tip(txs, baseFee, i);
  }

  lemma RisingStep(txs: seq<Transaction>, baseFee: int, j: nat)
    requires Rising(txs, baseFee, j) && j > 0
    requires Tip(txs, baseFee, j) > Tip(txs, baseFee, Parent(j))
    ensures Rising(Swapped(txs, Parent(j), j), baseFee, Parent(j))
  {
    var after := Swapped(txs, Parent(j), j);
    SwappedTip(txs, baseFee, Parent(j), j, j);
    hide Swapped, Tip;
    forall k | 0 < k < |after| && k != Parent(j)
      ensures Tip(after, baseFee, k) <= Tip(after, baseFee, Parent(k))
    {
      RisingPair(txs, baseFee, j, k);
    }
    forall k | 0 < k < |after| && 0 < Parent(j) == Parent(k)
      ensures Tip(after, baseFee, k) <= Tip(after, baseFee, Parent(Parent(j)))
    {
      RisingGrandchild(txs, baseFee, j, k);
    }
  }

  lemma RisingDone(txs: seq<Transaction>, baseFee: int, j: nat)
    requires Rising(txs, baseFee, j)
    requires j == 0 || Tip(txs, baseFee, j) <= Tip(txs, baseFee, Parent(j))
    ensures IsHeap(txs, baseFee, |txs|)
  {
  }

  /** In order from i0 on but for the children of i, and those fit below i's parent. */
  ghost predicate Sinking(txs: seq<Transaction>, baseFee: int, i0: nat, n: nat, i: nat) {
    && Priced(txs) && i0 <= i && n <= |txs|
    && Ordered(txs, baseFee, i0, n, i)
    && (forall k :: 0 < k < n && i0 <= Parent(i) && i0 < i == Parent(k) ==>
      Tip(txs, baseFee, k) <= Tip(txs, baseFee, Parent(i)))
  }

  /** The better of i's children among the first n. */
  ghost predicate BestChild(txs: seq<Transaction>, baseFee: int, n: nat, i: nat, j: nat)
    requires Priced(txs) && n <= |txs|
  {
    && Parent(j) == i && 0 < j < n
    && forall k :: 0 < k < n && Parent(k) == i ==> Tip(txs, baseFee, k) <= Tip(txs, baseFee, j)
  }

  lemma SinkingStep(txs: seq<Transaction>, baseFee: int, i0: nat, n: nat, i: nat, j: nat)
    requires Sinking(txs, baseFee, i0, n, i) && BestChild(txs, baseFee, n, i, j)
    requires Tip(txs, baseFee, j) > Tip(txs, baseFee, i)
    ensures Sinking(Swapped(txs, i, j), baseFee, i0, n, j)
  {
    var after := Swapped(txs, i, j);
    forall k | 0 < k < n && i0 <= Parent(k) != j
      ensures Tip(after, baseFee, k) <= Tip(after, baseFee, Parent(k))
    {
      if k == i {
        assert Tip(after, baseFee, i) == Tip(txs, baseFee, j);
      } else if Parent(k) == i {
        assert Tip(after, baseFee, Parent(k)) == Tip(txs, baseFee, j);
      } else {
        assert Tip(txs, baseFee, k) <= Tip(txs, baseFee, Parent(k));
      }
    }
    forall k | 0 < k < n && j == Parent(k)
      ensures Tip(after, baseFee, k) <= Tip(after, baseFee, i)
    {
      assert Tip(txs, baseFee, k) <= Tip(txs, baseFee, Parent(k));
    }
  }

  lemma SinkingDone(txs: seq<Transaction>, baseFee: int, i0: nat, n: nat, i: nat)
    requires Sinking(txs, baseFee, i0, n, i)
    requires forall k :: 0 < k < n && Parent(k) == i ==> Tip(txs, baseFee, k) <= Tip(txs, baseFee, i)
    ensures Ordered(txs, baseFee, i0, n, -1)
  {
  }

  lemma SinkingStop(txs: seq<Transaction>, baseFee: int, i0: nat, n: nat, i: nat, j: nat)
    requires Sinking(txs, baseFee, i0, n, i) && BestChild(txs, baseFee, n, i, j)
    requires Tip(txs, baseFee, j) <= Tip(txs, baseFee, i)
    ensures Ordered(txs, baseFee, i0, n, -1)
  {
  }

  /** The child `down` picks, and whether it needs to go on. */
  lemma PickChild(txs: seq<Transaction>, baseFee: int, n: nat, i: nat)
    requires Priced(txs) && n <= |txs|
    ensures 2 * i + 1 >= n ==> forall k :: 0 < k < n ==> Parent(k) != i
    ensures var j := 2 * i + 1; j < n ==>
      BestChild(txs, baseFee, n, i, if j + 1 < n && Tip(txs, baseFee, j + 1) > Tip(txs, baseFee, j) then j + 1 else j)
  {
    forall k | 0 < k < n && Parent(k) == i
      ensures k == 2 * i + 1 || k == 2 * i + 2
    {
    }
  }

  /** A swap inside the first n permutes them and leaves the rest. */
  lemma SwapInside(txs: seq<Transaction>, n: nat, i: nat, j: nat)
    requires i < n && j < n <= |txs|
    ensures multiset(Swapped(txs, i, j)[..n]) == multiset(txs[..n]) && Swapped(txs, i, j)[n..] == txs[n..]
  {
  }

  class Heap {
    var txs: seq<Transaction>
    var baseFee: int

    constructor (txs: seq<Transaction>, baseFee: int)
      ensures this.txs == txs && this.baseFee == baseFee
    {
      this.txs, this.baseFee := txs, baseFee;
    }

    predicate Less(i: nat, j: nat)
      requires Priced(txs) && i < |txs| && j < |txs|
      reads this
    {
      Tip(txs, baseFee, i) > Tip(txs, baseFee, j)
    }

    method Swap(i: nat, j: nat)
      requires i < |txs| && j < |txs|
      modifies `txs
      ensures txs == Swapped(old(txs), i, j)
    {
      txs := txs[i := txs[j]][j := txs[i]];
    }

    method Push(x: Transaction)
      modifies `txs
      ensures txs == old(txs) + [x]
    {
      txs := txs + [x];
    }

    method Pop() returns (tx: Transaction)
      requires txs != []
      modifies `txs
      ensures tx == old(txs)[|old(txs)| - 1] && txs == old(txs)[..|old(txs)| - 1]
    {
      tx := txs[|txs| - 1];
      txs := txs[..|txs| - 1];
    }

    // ----- container/heap -----

    /** Sift the last element up. */
    method Up(j0: nat)
      requires Priced(txs) && j0 == |txs| - 1 && IsHeap(txs, baseFee, j0)
      modifies `txs
      ensures Priced(txs) && IsHeap(txs, baseFee, |txs|)
      ensures multiset(txs) == multiset(old(txs))
    {
      var j := j0;
      assert Rising(txs, baseFee, j);
      hide Rising, IsHeap, Swapped;
      while true
        invariant 0 <= j < |txs| && Priced(txs) && Rising(txs, baseFee, j)
        invariant multiset(txs) == multiset(old(txs))
        decreases j
      {
        var i := if j == 0 then 0 else Parent(j);
        if i == j || !Less(j, i) { break; }
        RisingStep(txs, baseFee, j);
        Swap(i, j);
        j := i;
      }
      RisingDone(txs, baseFee, j);
    }

    /** Sift element i0 down among the first n. */
    method Down(i0: nat, n: nat) returns (moved: bool)
      requires Priced(txs) && n <= |txs| && Ordered(txs, baseFee, i0, n, i0)
      modifies `txs
      ensures |txs| == |old(txs)| && Priced(txs) && Ordered(txs, baseFee, i0, n, -1)
      ensures multiset(txs[..n]) == multiset(old(txs)[..n]) && txs[n..] == old(txs)[n..]
    {
      var i := i0;
      assert Sinking(txs, baseFee, i0, n, i);
      hide Sinking, Ordered, Swapped, BestChild;
      while true
        invariant i0 <= i && n <= |txs| == |old(txs)| && Priced(txs) && Sinking(txs, baseFee, i0, n, i)
        invariant multiset(txs[..n]) == multiset(old(txs)[..n]) && txs[n..] == old(txs)[n..]
        decreases n - i
      {
        PickChild(txs, baseFee, n, i);
        var j1 := 2 * i + 1;
        if j1 >= n { SinkingDone(txs, baseFee, i0, n, i); break; }
        var j := j1;
        if j1 + 1 < n && Less(j1 + 1, j1) { j := j1 + 1; }
        if !Less(j, i) { SinkingStop(txs, baseFee, i0, n, i, j); break; }
        SinkingStep(txs, baseFee, i0, n, i, j);
        SwapInside(txs, n, i, j);
        Swap(i, j);
        i := j;
      }
      moved := i > i0;
    }

    /** Heapify. */
    method Init()
      requires Priced(txs)
      modifies `txs
      ensures Priced(txs) && IsHeap(txs, baseFee, |txs|)
      ensures multiset(txs) == multiset(old(txs))
    {
      var n := |txs|;
      for i := n / 2 downto 0
        invariant |txs| == n && Priced(txs) && Ordered(txs, baseFee, i, n, -1)
        invariant multiset(txs) == multiset(old(txs))
      {
        label L:
        var moved := Down(i, n);
        assert txs == txs[..n] && old@L(txs) == old@L(txs)[..n];
      }
    }

    method HeapPush(x: Transaction)
      requires Priced(txs) && x.maxFee.Some? && IsHeap(txs, baseFee, |txs|)
      modifies `txs
      ensures Priced(txs) && IsHeap(txs, baseFee, |txs|)
      ensures multiset(txs) == multiset(old(txs)) + multiset{x}
    {
      Push(x);
      assert IsHeap(txs, baseFee, |txs| - 1) by {
        assert forall k :: 0 <= k < |old(txs)| ==> Tip(txs, baseFee, k) == Tip(old(txs), baseFee, k);
      }
      Up(|txs| - 1);
    }

    /** Take out the best transaction. */
    method HeapPop() returns (x: Transaction)
      requires txs != [] && Priced(txs) && IsHeap(txs, baseFee, |txs|)
      modifies `txs
      ensures Priced(txs) && IsHeap(txs, baseFee, |txs|)
      ensures multiset(old(txs)) == multiset(txs) + multiset{x}
      ensures x.maxFee.Some? && forall t :: t in txs ==> t.maxFee.Some? && t.EffectiveTip(baseFee) <= x.EffectiveTip(baseFee)
    {
      var n := |txs| - 1;
      ghost var was := txs;
      hide IsHeap, Swapped, Ordered, Priced;
      RootBeatsAll(was, baseFee);
      SwappedOut(was, baseFee, n);
      Swap(0, n);
      var moved := Down(0, n);
      Shortened(was, txs, baseFee, n);
      x := Pop();
    }
  }

  /** The root, swapped with the last element, leaves a heap but for the new root. */
  lemma SwappedOut(txs: seq<Transaction>, baseFee: int, n: nat)
    requires |txs| == n + 1 && Priced(txs) && IsHeap(txs, baseFee, n + 1)
    ensures Priced(Swapped(txs, 0, n)) && Ordered(Swapped(txs, 0, n), baseFee, 0, n, 0)
  {
    var s := Swapped(txs, 0, n);
    forall j | 0 < j < n && Parent(j) != 0
      ensures Tip(s, baseFee, j) <= Tip(s, baseFee, Parent(j))
    {
      assert Tip(txs, baseFee, j) <= Tip(txs, baseFee, Parent(j));
    }
  }

  /** What is left once the old root goes from the end. */
  lemma Shortened(was: seq<Transaction>, now: seq<Transaction>, baseFee: int, n: nat)
    requires |now| == |was| == n + 1 && Priced(now) && Ordered(now, baseFee, 0, n, -1)
    requires multiset(now[..n]) == multiset(Swapped(was, 0, n)[..n]) && now[n..] == Swapped(was, 0, n)[n..]
    ensures Priced(now[..n]) && IsHeap(now[..n], baseFee, n)
    ensures now[n] == was[0] && multiset(was) == multiset(now[..n]) + multiset{was[0]}
    ensures forall t :: t in now[..n] ==> t in was
  {
    var s := Swapped(was, 0, n);
    assert s == s[..n] + [was[0]];
    assert now[n] == now[n..][0] == s[n..][0] == s[n];
    forall j | 0 < j < n
      ensures Tip(now[..n], baseFee, j) <= Tip(now[..n], baseFee, Parent(j))
    {
      assert Tip(now, baseFee, j) <= Tip(now, baseFee, Parent(j));
    }
    forall t | t in now[..n]
      ensures t in was
    {
      assert t in multiset(now[..n]) && t in multiset(was);
    }
  }

  /** Every element of a heap is matched or beaten by the root. */
  lemma RootBeatsAll(txs: seq<Transaction>, baseFee: int)
    requires txs != [] && Priced(txs) && IsHeap(txs, baseFee, |txs|)
    ensures forall t :: t in txs ==> t.maxFee.Some? && t.EffectiveTip(baseFee) <= txs[0].EffectiveTip(baseFee)
  {
    forall t | t in txs
      ensures t.maxFee.Some? && t.EffectiveTip(baseFee) <= txs[0].EffectiveTip(baseFee)
    {
      var j :| 0 <= j < |txs| && txs[j] == t;
      RootIsBest(txs, baseFee, |txs|, j);
    }
  }
}
