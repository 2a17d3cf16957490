/**
 The cross-layer bridge: message identifiers and the store of messages. The
 hashed preimage is injective although the amount is written in decimal, so
 before the 64-bit nonce wraps no initiation overwrites a message.
 */
module Bridge {
  import opened Prelude

  // ----- Decimal text -----

  function Digits(n: nat): (s: seq<Byte>)
    ensures s != [] && forall i :: 0 <= i < |s| ==> 48 <= s[i] <= 57
  {
    if n < 10 then [48 + n] else Digits(n / 10) + [48 + n % 10]
  }

  /** Text of an integer, a minus sign first if it is negative. */
  function Decimal(n: int): seq<Byte> {
    if n < 0 then [45] + Digits(-n) else Digits(n)
  }

  function ParseDigits(s: seq<Byte>): int {
    if s == [] then 0 else 10 * ParseDigits(s[..|s| - 1]) + s[|s| - 1] as int - 48
  }

  function ParseDecimal(s: seq<Byte>): int {
    if s != [] && s[0] == 45 then -ParseDigits(s[1..]) else ParseDigits(s)
  }

  lemma {:induction false} ParseOfDigits(n: nat)
    ensures ParseDigits(Digits(n)) == n
  {
    if n < 10 {
      assert ParseDigits([]) == 0;
    } else {
      var s := Digits(n);
      assert s[..|s| - 1] == Digits(n / 10);
      ParseOfDigits(n / 10);
    }
  }

  /** Reading back what was written. */
  lemma ParseOfDecimal(n: int)
    ensures ParseDecimal(Decimal(n)) == n
  {
    hide Digits, ParseDigits;
    if n < 0 {
      assert Decimal(n)[1..] == Digits(-n);
      ParseOfDigits(-n);
    } else {
      ParseOfDigits(n);
    }
  }

  /** Decimal notation: each digit stands behind the digits of the tenth part, with no leading zero. */
  lemma DecimalIs(n: int, d: int)
    requires n >= 0 && 0 <= d < 10
    ensures Decimal(d) == [48 + d]
    ensures n > 0 ==> Decimal(10 * n + d) == Decimal(n) + [48 + d]
    ensures n > 0 ==> Decimal(-n) == [45] + Decimal(n)
  {
    assert (10 * n + d) / 10 == n && (10 * n + d) % 10 == d;
  }

  // ----- Message identifiers -----

  /** The arguments of an initiation; the source does not check the direction either. */
  datatype Params = Params(
    direction: Byte, srcChain: Uint64, dstChain: Uint64, sender: Address, recipient: Address, amount: int, data: seq<Byte>)

  /** What is hashed: neither the direction nor the payload. */
  function Preimage(p: Params, nonce: Uint64): seq<Byte> {
    p.sender + p.recipient + Decimal(p.amount) + BigEndian(p.srcChain, 8) + BigEndian(p.dstChain, 8) + BigEndian(nonce, 8)
  }

  /** Where each argument stands among the hashed bytes; the amount takes what the others leave. */
  lemma PreimageLayout(p: Params, nonce: Uint64)
    ensures var (bytes, n) := (Preimage(p, nonce), |Decimal(p.amount)|);
            && |bytes| == 64 + n
            && bytes[..20] == p.sender && bytes[20..40] == p.recipient && bytes[40..40 + n] == Decimal(p.amount)
            && bytes[40 + n..48 + n] == BigEndian(p.srcChain, 8)
            && bytes[48 + n..56 + n] == BigEndian(p.dstChain, 8)
            && bytes[56 + n..] == BigEndian(nonce, 8)
  {
    hide BigEndian, Decimal;
  }

  /** The preimage determines all that goes into it, the variable-length amount included. */
  lemma PreimageInjective(p: Params, m: Uint64, q: Params, n: Uint64)
    requires Preimage(p, m) == Preimage(q, n)
    ensures m == n && p.(direction := 0, data := []) == q.(direction := 0, data := [])
  {
    var (p1, q1) := (p.sender + p.recipient + Decimal(p.amount), q.sender + q.recipient + Decimal(q.amount));
    var (p2, q2) := (p1 + BigEndian(p.srcChain, 8), q1 + BigEndian(q.srcChain, 8));
    hide BigEndian, Decimal, ParseDecimal;
    CancelLast(p2 + BigEndian(p.dstChain, 8), BigEndian(m, 8), q2 + BigEndian(q.dstChain, 8), BigEndian(n, 8));
    CancelLast(p2, BigEndian(p.dstChain, 8), q2, BigEndian(q.dstChain, 8));
    CancelLast(p1, BigEndian(p.srcChain, 8), q1, BigEndian(q.srcChain, 8));
    assert p1[..20] == p.sender && q1[..20] == q.sender;
    assert p1[20..40] == p.recipient && q1[20..40] == q.recipient;
    assert p1[40..] == Decimal(p.amount) && q1[40..] == Decimal(q.amount);
    ParseOfDecimal(p.amount);
    ParseOfDecimal(q.amount);
    EightBytes();
    BigEndianInjective(m, n, 8);
    BigEndianInjective(p.srcChain, q.srcChain, 8);
    BigEndianInjective(p.dstChain, q.dstChain, 8);
  }

  lemma {:induction false} BigEndianByte(v: nat, n: nat, k: nat)
    requires k < n
    ensures Pow256(n - 1 - k) > 0 && BigEndian(v, n)[k] == v / Pow256(n - 1 - k) % 256
    decreases n
  {
    if k == n - 1 {
      assert Pow256(0) == 1;
    } else {
      BigEndianByte(v / 256, n - 1, k);
      DivideInTwo(v, 256, Pow256(n - 2 - k));
    }
  }

  /** The buffer the program fills, one shifted byte at a time. */
  method FillBuffer(v: Uint64) returns (buf: array<Byte>)
    ensures fresh(buf) && buf[..] == BigEndian(v, 8)
  {
    buf := new Byte[8](_ => 0);
    for k := 0 to 8
      invariant forall j :: 0 <= j < k ==> buf[j] == BigEndian(v, 8)[j]
    {
      BigEndianByte(v, 8, k);
      buf[k] := v / Pow256(7 - k) % 256;
    }
  }

  type HashFunction = seq<Byte> -> Hash

  method GenerateMessageID(hash: HashFunction, p: Params, nonce: Uint64) returns (id: Hash)
    ensures id == hash(Preimage(p, nonce))
  {
    var h := p.sender + p.recipient + Decimal(p.amount);
    var buf := FillBuffer(p.srcChain);
    h := h + buf[..];
    buf := FillBuffer(p.dstChain);
    h := h + buf[..];
    buf := FillBuffer(nonce);
    h := h + buf[..];
    id := hash(h);
  }

  // ----- The store, on values -----

  const LAYER_L1: int := 14000101
  const LAYER_L3: int := 903

  /** L3 and L1 never exchange messages directly. */
  predicate Routable(src: int, dst: int) {
    !(src == LAYER_L3 && dst == LAYER_L1) && !(src == LAYER_L1 && dst == LAYER_L3)
  }

  datatype Status = Initiated | Proven | Finalized

  datatype Msg = Msg(params: Params, initiatedAt: int, status: Status, proof: Hash, finalizedAt: Option<int>)

  datatype Store = Store(messages: map<Hash, Msg>, nonce: nat)

  /** A call, with the time it is made where the store keeps that. */
  datatype Op = Initiate(params: Params, now: int) | Prove(id: Hash, proof: Hash) | Finalize(id: Hash, now: int)

  function NewMessage(p: Params, now: int): Msg { Msg(p, now, Initiated, ZeroHash(), None) }

  predicate Admissible(p: Params) { Routable(p.srcChain, p.dstChain) && p.amount > 0 }

  function IdAt(hash: HashFunction, p: Params, nonce: Uint64): Hash { hash(Preimage(p, nonce)) }

  predicate Succeeds(s: Store, op: Op) {
    match op
    case Initiate(p, _) => Admissible(p)
    case Prove(id, _) => id in s.messages && s.messages[id].status.Initiated?
    case Finalize(id, _) => id in s.messages && s.messages[id].status.Proven?
  }

  function Apply(hash: HashFunction, s: Store, op: Op): Store {
    if !Succeeds(s, op) then s
    else
      match op
      case Initiate(p, now) =>
        var n := (s.nonce + 1) % TWO_64;
        Store(s.messages[IdAt(hash, p, n) := NewMessage(p, now)], n)
      case Prove(id, proof) => s.(messages := s.messages[id := s.messages[id].(status := Proven, proof := proof)])
      case Finalize(id, now) =>
        s.(messages := s.messages[id := s.messages[id].(status := Finalized, finalizedAt := Some(now))])
  }

  function Run(hash: HashFunction, s: Store, ops: seq<Op>): Store
    decreases |ops|
  {
    if ops == [] then s else Run(hash, Apply(hash, s, ops[0]), ops[1..])
  }

  /** The accepted initiations of a run. */
  function Log(ops: seq<Op>): seq<Params>
    decreases |ops|
  {
    if ops == [] then []
    else (if ops[0].Initiate? && Admissible(ops[0].params) then [ops[0].params] else []) + Log(ops[1..])
  }

  /** Accepted is a positive amount on any route but the two between layers 1 and 3; it is stored under the hash of the next nonce. */
  lemma InitiationIs(hash: HashFunction, s: Store, p: Params, now: int)
    ensures var (bad, n) := ({p.srcChain, p.dstChain} == {903, 14_000_101}, (s.nonce + 1) % 0x1_0000_0000_0000_0000);
            var (op, r) := (Initiate(p, now), Apply(hash, s, Initiate(p, now)));
            && (Succeeds(s, op) <==> p.amount > 0 && !bad)
            && (!Succeeds(s, op) ==> r == s)
            && (Succeeds(s, op) ==>
              r.nonce == n && r.messages == s.messages[hash(Preimage(p, n)) := Msg(p, now, Initiated, seq(32, _ => 0), None)])
  {
    hide Preimage;
    assert {p.srcChain, p.dstChain} == {903, 14_000_101} <==>
      (p.srcChain == 903 && p.dstChain == 14_000_101) || (p.srcChain == 14_000_101 && p.dstChain == 903) by {
      assert p.srcChain in {p.srcChain, p.dstChain} && p.dstChain in {p.srcChain, p.dstChain};
      assert 903 in {903, 14_000_101} && 14_000_101 in {903, 14_000_101};
    }
  }

  // ----- No initiation overwrites -----

  /** What a list of initiations leaves, by identifier. */
  function InitiatedBy(hash: HashFunction, log: seq<Params>): map<Hash, Params>
    requires |log| < TWO_64
    decreases |log|
  {
    if log == [] then map[]
    else
      var (n, p) := (|log|, log[|log| - 1]);
      InitiatedBy(hash, log[..n - 1])[IdAt(hash, p, n) := p]
  }

  /** The hash separates the preimages of these initiations. */
  ghost predicate Separates(hash: HashFunction, log: seq<Params>)
    requires |log| < TWO_64
  {
    forall j, k :: 0 <= j < |log| && 0 <= k < |log| && IdAt(hash, log[j], j + 1) == IdAt(hash, log[k], k + 1) ==>
      Preimage(log[j], j + 1) == Preimage(log[k], k + 1)
  }

  lemma DistinctIds(hash: HashFunction, log: seq<Params>, j: nat, k: nat)
    requires j < k < |log| < TWO_64 && Separates(hash, log)
    ensures IdAt(hash, log[j], j + 1) != IdAt(hash, log[k], k + 1)
  {
    hide Preimage, IdAt;
    if IdAt(hash, log[j], j + 1) == IdAt(hash, log[k], k + 1) {
      PreimageInjective(log[j], j + 1, log[k], k + 1);
    }
  }

  /** The next initiation gets an identifier none of the first m has. */
  lemma {:induction false} NextIdIsFresh(hash: HashFunction, log: seq<Params>, p: Params, m: nat)
    requires m <= |log| && |log| + 1 < TWO_64 && Separates(hash, log + [p])
    ensures IdAt(hash, p, |log| + 1) !in InitiatedBy(hash, log[..m])
    decreases m
  {
    hide IdAt, Separates;
    if m > 0 {
      assert log[..m][..m - 1] == log[..m - 1];
      NextIdIsFresh(hash, log, p, m - 1);
      assert (log + [p])[m - 1] == log[m - 1] && (log + [p])[|log|] == p;
      DistinctIds(hash, log + [p], m - 1, |log|);
    }
  }

  lemma InitiatedNext(hash: HashFunction, log: seq<Params>, p: Params)
    requires |log| + 1 < TWO_64 && Separates(hash, log + [p])
    ensures var id := IdAt(hash, p, |log| + 1);
            id !in InitiatedBy(hash, log) && InitiatedBy(hash, log + [p]) == InitiatedBy(hash, log)[id := p]
  {
    hide IdAt, Separates;
    assert (log + [p])[..|log|] == log && log[..|log|] == log;
    NextIdIsFresh(hash, log, p, |log|);
  }

  /** There are as many messages as initiations. */
  lemma {:induction false} InitiatedCount(hash: HashFunction, log: seq<Params>)
    requires |log| < TWO_64 && Separates(hash, log)
    ensures |InitiatedBy(hash, log)| == |log|
    decreases |log|
  {
    hide IdAt, Separates;
    if log != [] {
      var (rest, p) := (log[..|log| - 1], log[|log| - 1]);
      assert log == rest + [p];
      SeparatesPrefix(hash, rest, [p]);
      InitiatedNext(hash, rest, p);
      InitiatedCount(hash, rest);
    }
  }

  lemma SeparatesPrefix(hash: HashFunction, a: seq<Params>, b: seq<Params>)
    requires |a + b| < TWO_64 && Separates(hash, a + b)
    ensures Separates(hash, a)
  {
    hide IdAt, Preimage;
    assert forall k :: 0 <= k < |a| ==> (a + b)[k] == a[k];
  }

  /** The store holds exactly the messages of these initiations. */
  ghost predicate Holds(hash: HashFunction, s: Store, log: seq<Params>)
    requires |log| < TWO_64
  {
    && s.nonce == |log|
    && s.messages.Keys == InitiatedBy(hash, log).Keys
    && forall id :: id in s.messages ==> s.messages[id].params == InitiatedBy(hash, log)[id]
  }

  // ----- Messages only move forward -----

  /** What one operation makes of a message: only a proof moves an initiated one, only finalizing a proven one. */
  predicate Moved(op: Op, id: Hash, a: Msg, b: Msg) {
    if op.Prove? && op.id == id && a.status.Initiated? then b == a.(status := Proven, proof := op.proof)
    else if op.Finalize? && op.id == id && a.status.Proven? then b == a.(status := Finalized, finalizedAt := Some(op.now))
    else b == a
  }

  /** A message any number of operations later: a proof, once set, stays, and a finalized message is final. */
  predicate Later(a: Msg, b: Msg) {
    && b.params == a.params && b.initiatedAt == a.initiatedAt
    && (b.status.Initiated? ==> b == a)
    && (a.status.Proven? ==> b == a || b == a.(status := Finalized, finalizedAt := b.finalizedAt))
    && (a.status.Finalized? ==> b == a)
  }

  lemma ApplyInitiate(hash: HashFunction, s: Store, p: Params, now: int)
    requires s.nonce + 1 < TWO_64 && Admissible(p)
    ensures Apply(hash, s, Initiate(p, now))
         == Store(s.messages[IdAt(hash, p, s.nonce + 1) := NewMessage(p, now)], s.nonce + 1)
  {
    hide IdAt;
    assert (s.nonce + 1) % TWO_64 == s.nonce + 1;
  }

  lemma InitiateForward(hash: HashFunction, s: Store, log: seq<Params>, p: Params, now: int)
    requires |log| + 1 < TWO_64 && Holds(hash, s, log) && Separates(hash, log + [p]) && Admissible(p)
    ensures Holds(hash, Apply(hash, s, Initiate(p, now)), log + [p])
    ensures forall id :: id in s.messages ==>
      id in Apply(hash, s, Initiate(p, now)).messages && Apply(hash, s, Initiate(p, now)).messages[id] == s.messages[id]
  {
    hide IdAt, Separates, InitiatedBy, Apply, Admissible;
    InitiatedNext(hash, log, p);
    ApplyInitiate(hash, s, p, now);
  }

  /** Proving and finalizing change one message, forward. */
  lemma ChangeForward(hash: HashFunction, s: Store, op: Op)
    requires !op.Initiate? || !Admissible(op.params)
    ensures var r := Apply(hash, s, op);
            r.nonce == s.nonce && r.messages.Keys == s.messages.Keys
            && forall id :: id in s.messages ==> Moved(op, id, s.messages[id], r.messages[id])
  {
  }

  lemma ApplyForward(hash: HashFunction, s: Store, log: seq<Params>, op: Op)
    requires |log + Log([op])| < TWO_64 && Holds(hash, s, log) && Separates(hash, log + Log([op]))
    ensures Holds(hash, Apply(hash, s, op), log + Log([op]))
    ensures forall id :: id in s.messages ==>
      id in Apply(hash, s, op).messages && Moved(op, id, s.messages[id], Apply(hash, s, op).messages[id])
  {
    assert Log([op]) == if op.Initiate? && Admissible(op.params) then [op.params] else [];
    hide IdAt, Separates, InitiatedBy, Admissible, Log, Apply;
    if op.Initiate? && Admissible(op.params) {
      InitiateForward(hash, s, log, op.params, op.now);
    } else {
      ChangeForward(hash, s, op);
      assert log + [] == log;
    }
  }

  /**
   Every run of fewer than 2^64 accepted initiations, with a hash that separates
   their preimages: the messages are exactly the initiated ones, and each only
   moves forward, with its proof set once. `EveryMessage` says by which calls.
   */
  lemma {:induction false} RunForward(hash: HashFunction, s: Store, log: seq<Params>, ops: seq<Op>)
    requires |log + Log(ops)| < TWO_64 && Holds(hash, s, log) && Separates(hash, log + Log(ops))
    ensures Holds(hash, Run(hash, s, ops), log + Log(ops))
    ensures forall id :: id in s.messages ==>
      id in Run(hash, s, ops).messages && Later(s.messages[id], Run(hash, s, ops).messages[id])
    decreases |ops|
  {
    hide Separates, Apply, InitiatedBy, Admissible;
    if ops == [] {
      assert log + [] == log;
    } else {
      var step := log + Log([ops[0]]);
      LogSplit(ops);
      assert log + Log(ops) == step + Log(ops[1..]);
      SeparatesPrefix(hash, step, Log(ops[1..]));
      ApplyForward(hash, s, log, ops[0]);
      RunForward(hash, Apply(hash, s, ops[0]), step, ops[1..]);
    }
  }

  lemma LogSplit(ops: seq<Op>)
    requires ops != []
    ensures Log(ops) == Log([ops[0]]) + Log(ops[1..])
  {
  }

  /** From an empty store: the messages are the initiated ones, and the nonce counts them. */
  lemma EveryRun(hash: HashFunction, ops: seq<Op>)
    requires |Log(ops)| < TWO_64 && Separates(hash, Log(ops))
    ensures var r := Run(hash, Store(map[], 0), ops); Holds(hash, r, Log(ops)) && |r.messages| == |Log(ops)| == r.nonce
  {
    assert [] + Log(ops) == Log(ops);
    RunForward(hash, Store(map[], 0), [], ops);
    InitiatedCount(hash, Log(ops));
    var r := Run(hash, Store(map[], 0), ops);
    assert |r.messages| == |r.messages.Keys| == |InitiatedBy(hash, Log(ops)).Keys|;
  }

  /** The bound is the nonce's width: after 2^64 - 1 initiations the nonce starts again. */
  lemma NonceWraps(hash: HashFunction, s: Store, p: Params, now: int)
    requires s.nonce == TWO_64 - 1 && Admissible(p)
    ensures Apply(hash, s, Initiate(p, now)).nonce == 0
  {
  }

  // ----- No message is finalized without a proof -----

  predicate InitiatedAt(ops: seq<Op>, k: int, m: Msg) {
    0 <= k < |ops| && ops[k] == Initiate(m.params, m.initiatedAt)
  }

  predicate ProvenAt(ops: seq<Op>, i: int, id: Hash, m: Msg) {
    0 <= i < |ops| && ops[i] == Prove(id, m.proof)
  }

  predicate FinalizedAt(ops: seq<Op>, j: int, id: Hash, m: Msg) {
    0 <= j < |ops| && m.finalizedAt.Some? && ops[j] == Finalize(id, m.finalizedAt.value)
  }

  /** The calls that brought a message to where it is, in this order. */
  ghost predicate Explained(ops: seq<Op>, id: Hash, m: Msg) {
    match m.status
    case Initiated =>
      m.proof == ZeroHash() && m.finalizedAt.None? && exists k :: InitiatedAt(ops, k, m)
    case Proven =>
      m.finalizedAt.None? && exists k, i :: k < i && InitiatedAt(ops, k, m) && ProvenAt(ops, i, id, m)
    case Finalized =>
      exists k, i, j :: k < i < j && InitiatedAt(ops, k, m) && ProvenAt(ops, i, id, m) && FinalizedAt(ops, j, id, m)
  }

  ghost predicate AllExplained(ops: seq<Op>, s: Store) {
    forall id :: id in s.messages ==> Explained(ops, id, s.messages[id])
  }

  lemma StillExplained(ops: seq<Op>, id: Hash, m: Msg, op: Op)
    requires Explained(ops, id, m)
    ensures Explained(ops + [op], id, m)
  {
    assert forall k :: InitiatedAt(ops, k, m) ==> InitiatedAt(ops + [op], k, m);
    assert forall i :: ProvenAt(ops, i, id, m) ==> ProvenAt(ops + [op], i, id, m);
    assert forall j :: FinalizedAt(ops, j, id, m) ==> FinalizedAt(ops + [op], j, id, m);
  }

  /** What an accepted call does is explained by that call. */
  lemma MoveExplained(hash: HashFunction, s: Store, ops: seq<Op>, op: Op, id: Hash)
    requires AllExplained(ops, s) && id in Apply(hash, s, op).messages
    ensures Explained(ops + [op], id, Apply(hash, s, op).messages[id])
  {
    hide IdAt;
    var (more, b) := (ops + [op], Apply(hash, s, op).messages[id]);
    if id in s.messages && b == s.messages[id] {
      StillExplained(ops, id, b, op);
    } else {
      assert more[|ops|] == op;
      match op {
        case Initiate(_, _) => assert InitiatedAt(more, |ops|, b);
        case Prove(_, _) =>
          var k :| InitiatedAt(ops, k, s.messages[id]);
          assert InitiatedAt(more, k, b) && ProvenAt(more, |ops|, id, b);
        case Finalize(_, _) =>
          var k, i :| k < i && InitiatedAt(ops, k, s.messages[id]) && ProvenAt(ops, i, id, s.messages[id]);
          assert InitiatedAt(more, k, b) && ProvenAt(more, i, id, b) && FinalizedAt(more, |ops|, id, b);
      }
    }
  }

  lemma {:induction false} RunExplained(hash: HashFunction, s: Store, done: seq<Op>, ops: seq<Op>)
    requires AllExplained(done, s)
    ensures AllExplained(done + ops, Run(hash, s, ops))
    decreases |ops|
  {
    hide Apply, Explained;
    if ops == [] {
      assert done + [] == done;
    } else {
      var next := Apply(hash, s, ops[0]);
      forall id | id in next.messages
        ensures Explained(done + [ops[0]], id, next.messages[id])
      {
        MoveExplained(hash, s, done, ops[0], id);
      }
      RunExplained(hash, next, done + [ops[0]], ops[1..]);
      assert done + [ops[0]] + ops[1..] == done + ops;
    }
  }

  /**
   In every run from the empty store, whatever the hash and however long: an
   initiated message has no proof yet, a proven one was initiated and then
   proven with its proof, and a finalized one was finalized after that.
   */
  lemma EveryMessage(hash: HashFunction, ops: seq<Op>)
    ensures AllExplained(ops, Run(hash, Store(map[], 0), ops))
  {
    RunExplained(hash, Store(map[], 0), [], ops);
    assert [] + ops == ops;
  }

  // ----- The store of message objects -----

  class BridgeMessage {
    const messageID: Hash
    const params: Params
    const initiatedAt: int
    var status: Status
    var proofHash: Hash
    var finalizedAt: Option<int>

    constructor (messageID: Hash, params: Params, now: int)
      ensures this.messageID == messageID && Value() == NewMessage(params, now)
    {
      this.messageID, this.params, initiatedAt := messageID, params, now;
      status, proofHash, finalizedAt := Initiated, ZeroHash(), None;
    }

    function Value(): Msg
      reads this
    {
      Msg(params, initiatedAt, status, proofHash, finalizedAt)
    }
  }

  class MessageStore {
    const hash: HashFunction
    var messages: map<Hash, BridgeMessage>
    var nonce: Uint64
    ghost var store: Store
    ghost var Repr: set<object>

    ghost predicate Valid()
      reads this, Repr
      ensures Valid() ==> this in Repr
    {
      && this in Repr
      && nonce == store.nonce && messages.Keys == store.messages.Keys
      && forall id :: id in messages ==>
        messages[id] in Repr && messages[id].messageID == id && messages[id].Value() == store.messages[id]
    }

    constructor (hash: HashFunction)
      ensures Valid() && fresh(Repr) && store == Store(map[], 0) && this.hash == hash
    {
      this.hash := hash;
      messages, nonce := map[], 0;
      store, Repr := Store(map[], 0), {this};
    }

    method Initiate(p: Params, now: int) returns (r: Option<BridgeMessage>)
      requires Valid()
      modifies this
      ensures Valid() && fresh(Repr - old(Repr))
      ensures store == Apply(hash, old(store), Op.Initiate(p, now))
      ensures r.Some? <==> Admissible(p)
      ensures r.Some? ==> r.value.messageID in messages && messages[r.value.messageID] == r.value && r.value.Value() == NewMessage(p, now)
    {
      if !Routable(p.srcChain, p.dstChain) || p.amount <= 0 { return None; }
      nonce := (nonce + 1) % TWO_64;
      var id := GenerateMessageID(hash, p, nonce);
      var msg := new BridgeMessage(id, p, now);
      messages := messages[id := msg];
      Repr := Repr + {msg};
      store := Apply(hash, store, Op.Initiate(p, now));
      return Some(msg);
    }

    lemma SameKeys()
      requires Valid()
      ensures messages.Keys == store.messages.Keys
    {
    }

    /** No two identifiers share a message object. */
    lemma OnlyHolder(id: Hash)
      requires Valid() && id in messages
      ensures messages[id] in Repr && id in store.messages && messages[id].Value() == store.messages[id]
      ensures forall i :: i in messages && i != id ==> messages[i] != messages[id]
    {
    }

    /** One message has a new value and the store on values follows. */
    twostate lemma Updated(new id: Hash, new m: Msg)
      requires old(Valid()) && messages == old(messages) && nonce == old(nonce) && Repr == old(Repr)
      requires id in messages && messages[id].Value() == m && store == old(store).(messages := old(store).messages[id := m])
      requires forall i :: i in messages && i != id ==> unchanged(messages[i])
      ensures Valid()
    {
    }

    /** Only an initiated message can be proven. */
    method Prove(id: Hash, proof: Hash) returns (ok: bool)
      requires Valid()
      modifies `store, if id in messages then {messages[id]} else {}
      ensures Valid() && Repr == old(Repr)
      ensures ok == Succeeds(old(store), Op.Prove(id, proof))
      ensures store == Apply(hash, old(store), Op.Prove(id, proof))
    {
      SameKeys();
      hide Valid;
      if id !in messages { return false; }
      var msg := messages[id];
      OnlyHolder(id);
      if !msg.status.Initiated? { return false; }
      msg.status := Proven;
      msg.proofHash := proof;
      store := Apply(hash, store, Op.Prove(id, proof));
      Updated(id, msg.Value());
      return true;
    }

    /** Only a proven message can be finalized. */
    method Finalize(id: Hash, now: int) returns (ok: bool)
      requires Valid()
      modifies `store, if id in messages then {messages[id]} else {}
      ensures Valid() && Repr == old(Repr)
      ensures ok == Succeeds(old(store), Op.Finalize(id, now))
      ensures store == Apply(hash, old(store), Op.Finalize(id, now))
    {
      SameKeys();
      hide Valid;
      if id !in messages { return false; }
      var msg := messages[id];
      OnlyHolder(id);
      if !msg.status.Proven? { return false; }
      msg.status := Finalized;
      msg.finalizedAt := Some(now);
      store := Apply(hash, store, Op.Finalize(id, now));
      Updated(id, msg.Value());
      return true;
    }

    /** The messages that are not finalized, each once. */
    method Pending() returns (pending: seq<BridgeMessage>)
      requires Valid()
      ensures forall m :: m in pending <==>
        m.messageID in messages && messages[m.messageID] == m && !store.messages[m.messageID].status.Finalized?
      ensures forall i, j :: 0 <= i < j < |pending| ==> pending[i].messageID != pending[j].messageID
    {
      pending := [];
      var todo := messages.Keys;
      while todo != {}
        invariant todo <= messages.Keys
        invariant forall m :: m in pending <==>
          m.messageID in messages.Keys - todo && messages[m.messageID] == m && !m.status.Finalized?
        invariant forall i, j :: 0 <= i < j < |pending| ==> pending[i].messageID != pending[j].messageID
        decreases todo
      {
        var id :| id in todo;
        var msg := messages[id];
        if msg.status.Initiated? || msg.status.Proven? { pending := pending + [msg]; }
        todo := todo - {id};
      }
    }

    /** Any run of the store's operations is the run of its values. */
    method Replay(ops: seq<Op>)
      requires Valid()
      modifies Repr
      ensures Valid() && fresh(Repr - old(Repr)) && store == Run(hash, old(store), ops)
      decreases |ops|
    {
      hide Valid, Apply;
      if ops != [] {
        Perform(ops[0]);
        Replay(ops[1..]);
      }
    }

    method Perform(op: Op)
      requires Valid()
      modifies Repr
      ensures Valid() && fresh(Repr - old(Repr)) && store == Apply(hash, old(store), op)
    {
      assert forall id :: id in messages ==> messages[id] in Repr;
      hide Valid, Apply;
      match op {
        case Initiate(p, now) => var _ := Initiate(p, now);
        case Prove(id, proof) => var _ := Prove(id, proof);
        case Finalize(id, now) => var _ := Finalize(id, now);
      }
    }
  }
}
