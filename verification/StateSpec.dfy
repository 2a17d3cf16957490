/**
 What the world state means, on values: accounts, storage and code, the stack of
 saved rollback points, and the effect of every operation. `RevertRestores` is
 the main theorem; StateDB.dfy shows that the heap objects follow this meaning.
 */
module StateSpec {
  import opened Prelude

  type Code = seq<Byte>
  type Slots = map<Hash, Hash>

  datatype Account = Account(nonce: int, balance: int, codeHash: Hash, root: Hash)

  /** What a snapshot saves. */
  datatype Layer = Layer(accounts: map<Address, Account>, storage: map<Address, Slots>)

  datatype World = World(live: Layer, code: map<Hash, Code>, dirty: set<Address>, snapshots: seq<Layer>)

  function EmptyAccount(): Account { Account(0, 0, ZeroHash(), ZeroHash()) }

  // ----- Queries -----

  function GetAccount(w: World, a: Address): Account {
    if a in w.live.accounts then w.live.accounts[a] else EmptyAccount()
  }

  function GetStorage(w: World, a: Address, key: Hash): Hash {
    if a in w.live.storage && key in w.live.storage[a] then w.live.storage[a][key] else ZeroHash()
  }

  /** None is Go's nil: the account or its code is absent. */
  function GetCode(w: World, a: Address): Option<Code> {
    if a !in w.live.accounts then None
    else
      var h := w.live.accounts[a].codeHash;
      if h in w.code then Some(w.code[h]) else None
  }

  // ----- Operations -----

  datatype Op =
    | SetBalance(a: Address, amount: int)
    | AddBalance(a: Address, amount: int)
    | SubBalance(a: Address, amount: int)
    | Transfer(a: Address, dst: Address, amount: int)
    | IncrementNonce(a: Address)
    | SetCode(a: Address, code: Code)
    | SetStorage(a: Address, key: Hash, value: Hash)
    | Snapshot
    | Revert(id: int)

  function PutAccount(w: World, a: Address, acc: Account): World {
    w.(live := w.live.(accounts := w.live.accounts[a := acc]))
  }

  function Touch(w: World, a: Address): World { w.(dirty := w.dirty + {a}) }

  /** Overwrite the account at a and mark it modified. */
  function Put(w: World, a: Address, acc: Account): World { Touch(PutAccount(w, a, acc), a) }

  predicate Covers(w: World, a: Address, amount: int) { GetAccount(w, a).balance >= amount }

  function Credit(w: World, a: Address, amount: int): World {
    var acc := GetAccount(w, a);
    Put(w, a, acc.(balance := acc.balance + amount))
  }

  /** A debit that is refused still creates the account. */
  function Debit(w: World, a: Address, amount: int): World {
    if Covers(w, a, amount) then Credit(w, a, -amount) else PutAccount(w, a, GetAccount(w, a))
  }

  function Apply(sha: Code -> Hash, w: World, op: Op): World {
    match op
    case SetBalance(a, amount) => Put(w, a, GetAccount(w, a).(balance := amount))
    case AddBalance(a, amount) => Credit(w, a, amount)
    case SubBalance(a, amount) => Debit(w, a, amount)
    case Transfer(a, dst, amount) =>
      if Covers(w, a, amount) then Credit(Debit(w, a, amount), dst, amount) else Debit(w, a, amount)
    case IncrementNonce(a) =>
      var acc := GetAccount(w, a);
      Put(w, a, acc.(nonce := (acc.nonce + 1) % TWO_64))
    case SetCode(a, code) =>
      var w1 := w.(code := w.code[sha(code) := code]);
      Put(w1, a, GetAccount(w, a).(codeHash := sha(code)))
    case SetStorage(a, key, value) =>
      var slots: Slots := if a in w.live.storage then w.live.storage[a] else map[];
      Touch(w.(live := w.live.(storage := w.live.storage[a := slots[key := value]])), a)
    case Snapshot => w.(snapshots := w.snapshots + [w.live])
    case Revert(id) =>
      if 0 <= id < |w.snapshots|
      then w.(live := w.snapshots[id], snapshots := w.snapshots[..id], dirty := {})
      else w
  }

  function Run(sha: Code -> Hash, w: World, ops: seq<Op>): World
    decreases |ops|
  {
    if ops == [] then w else Run(sha, Apply(sha, w, ops[0]), ops[1..])
  }

  // ----- What the queries answer after an operation -----

  /** A storage write changes one slot of one contract and nothing else. */
  lemma StorageAfterWrite(sha: Code -> Hash, w: World, a: Address, key: Hash, value: Hash, b: Address, k: Hash)
    ensures var r := Apply(sha, w, SetStorage(a, key, value));
            && GetStorage(r, b, k) == (if b == a && k == key then value else GetStorage(w, b, k))
            && GetAccount(r, b) == GetAccount(w, b) && GetCode(r, b) == GetCode(w, b)
            && r.code == w.code && r.snapshots == w.snapshots && r.dirty == w.dirty + {a}
  {
  }

  /** What an operation on the account at a leaves alone: every other account, all storage, the snapshots. */
  ghost predicate OnlyAccount(w: World, r: World, a: Address) {
    && (forall b :: b != a ==> GetAccount(r, b) == GetAccount(w, b))
    && (forall b, k :: GetStorage(r, b, k) == GetStorage(w, b, k))
    && r.snapshots == w.snapshots
  }

  lemma AccountAfterSetBalance(sha: Code -> Hash, w: World, a: Address, amount: int)
    ensures var r := Apply(sha, w, SetBalance(a, amount));
            var (x, y) := (GetAccount(w, a), GetAccount(r, a));
            && y.balance == amount && y.nonce == x.nonce && y.codeHash == x.codeHash && y.root == x.root
            && OnlyAccount(w, r, a) && r.code == w.code && r.dirty == w.dirty + {a}
  {
  }

  lemma AccountAfterAddBalance(sha: Code -> Hash, w: World, a: Address, amount: int)
    ensures var r := Apply(sha, w, AddBalance(a, amount));
            var (x, y) := (GetAccount(w, a), GetAccount(r, a));
            && y.balance == x.balance + amount && y.nonce == x.nonce && y.codeHash == x.codeHash && y.root == x.root
            && OnlyAccount(w, r, a) && r.code == w.code && r.dirty == w.dirty + {a}
  {
  }

  /** A debit beyond the balance changes no answer and marks nothing. */
  lemma AccountAfterSubBalance(sha: Code -> Hash, w: World, a: Address, amount: int)
    ensures var r := Apply(sha, w, SubBalance(a, amount));
            var (x, y) := (GetAccount(w, a), GetAccount(r, a));
            && (x.balance < amount ==> y == x && r.dirty == w.dirty)
            && (x.balance >= amount ==> y.balance == x.balance - amount && r.dirty == w.dirty + {a})
            && y.nonce == x.nonce && y.codeHash == x.codeHash && y.root == x.root
            && OnlyAccount(w, r, a) && r.code == w.code
  {
  }

  /** The nonce counts, and after 2^64 - 1 it starts again from 0. */
  lemma AccountAfterIncrement(sha: Code -> Hash, w: World, a: Address)
    requires 0 <= GetAccount(w, a).nonce < 0x1_0000_0000_0000_0000
    ensures var r := Apply(sha, w, IncrementNonce(a));
            var (x, y) := (GetAccount(w, a), GetAccount(r, a));
            && y.nonce == (if x.nonce == 0xFFFF_FFFF_FFFF_FFFF then 0 else x.nonce + 1)
            && y.balance == x.balance && y.codeHash == x.codeHash && y.root == x.root
            && OnlyAccount(w, r, a) && r.code == w.code && r.dirty == w.dirty + {a}
  {
  }

  /** Setting code answers with it at once, and elsewhere only where the same hash is used. */
  lemma CodeAfterSet(sha: Code -> Hash, w: World, a: Address, code: Code, b: Address)
    ensures var r := Apply(sha, w, SetCode(a, code));
            var (x, y) := (GetAccount(w, a), GetAccount(r, a));
            && GetCode(r, a) == Some(code)
            && (b != a && GetAccount(w, b).codeHash != sha(code) ==> GetCode(r, b) == GetCode(w, b))
            && y.codeHash == sha(code) && y.balance == x.balance && y.nonce == x.nonce && y.root == x.root
            && OnlyAccount(w, r, a) && r.dirty == w.dirty + {a}
  {
  }

  /** Taking a snapshot changes no answer; a revert to an unknown one changes nothing; no account exists at first. */
  lemma QuietOperations(sha: Code -> Hash, w: World, id: int, a: Address, k: Hash)
    ensures var r := Apply(sha, w, Snapshot);
            && GetAccount(r, a) == GetAccount(w, a) && GetStorage(r, a, k) == GetStorage(w, a, k)
            && GetCode(r, a) == GetCode(w, a) && r.dirty == w.dirty && |r.snapshots| == |w.snapshots| + 1
    ensures id < 0 || id >= |w.snapshots| ==> Apply(sha, w, Revert(id)) == w
    ensures 0 <= id < |w.snapshots| ==> Apply(sha, w, Revert(id)).dirty == {}
    ensures var none := World(Layer(map[], map[]), map[], {}, []);
            && GetAccount(none, a) == Account(0, 0, seq(32, _ => 0), seq(32, _ => 0))
            && GetStorage(none, a, k) == seq(32, _ => 0) && GetCode(none, a) == None
  {
  }

  // ----- What the queries answer after a run -----

  /** The last value a list of operations writes to a slot. */
  function LastWrite(ops: seq<Op>, a: Address, key: Hash): Option<Hash>
    decreases |ops|
  {
    if ops == [] then None
    else
      var last := ops[|ops| - 1];
      if last.SetStorage? && last.a == a && last.key == key then Some(last.value)
      else LastWrite(ops[..|ops| - 1], a, key)
  }

  /** How often a list of operations increments the nonce of an account. */
  function Increments(ops: seq<Op>, a: Address): nat {
    if ops == [] then 0 else (if ops[0] == IncrementNonce(a) then 1 else 0) + Increments(ops[1..], a)
  }

  lemma {:induction false} RunSnoc(sha: Code -> Hash, w: World, ops: seq<Op>, op: Op)
    ensures Run(sha, w, ops + [op]) == Apply(sha, Run(sha, w, ops), op)
    decreases |ops|
  {
    hide Apply;
    if ops == [] {
      assert [op][1..] == [];
    } else {
      assert (ops + [op])[1..] == ops[1..] + [op];
      RunSnoc(sha, Apply(sha, w, ops[0]), ops[1..], op);
    }
  }

  predicate NoReverts(ops: seq<Op>) { forall op :: op in ops ==> !op.Revert? }

  lemma OthersKeepStorage(sha: Code -> Hash, w: World, op: Op, a: Address, key: Hash)
    requires !op.Revert? && !op.SetStorage?
    ensures GetStorage(Apply(sha, w, op), a, key) == GetStorage(w, a, key)
  {
  }

  /** In a run without reverts every slot holds what was last written to it, or what it held at first. */
  lemma {:induction false} StorageIsLastWrite(sha: Code -> Hash, w: World, ops: seq<Op>, a: Address, key: Hash)
    requires NoReverts(ops)
    ensures var last := LastWrite(ops, a, key);
            GetStorage(Run(sha, w, ops), a, key) == if last.Some? then last.value else GetStorage(w, a, key)
    decreases |ops|
  {
    hide Apply, GetStorage;
    if ops != [] {
      var (before, op) := (ops[..|ops| - 1], ops[|ops| - 1]);
      assert ops == before + [op];
      RunSnoc(sha, w, before, op);
      StorageIsLastWrite(sha, w, before, a, key);
      var mid := Run(sha, w, before);
      if op.SetStorage? {
        StorageAfterWrite(sha, mid, op.a, op.key, op.value, a, key);
      } else {
        OthersKeepStorage(sha, mid, op, a, key);
      }
    }
  }

  lemma NonceAfter(sha: Code -> Hash, w: World, op: Op, a: Address)
    requires !op.Revert?
    ensures GetAccount(Apply(sha, w, op), a).nonce ==
      if op == IncrementNonce(a) then (GetAccount(w, a).nonce + 1) % 0x1_0000_0000_0000_0000 else GetAccount(w, a).nonce
  {
  }

  /** In such a run an account's nonce counts its increments, in 64 bits. */
  lemma {:induction false} NonceCounts(sha: Code -> Hash, w: World, ops: seq<Op>, a: Address)
    requires NoReverts(ops) && 0 <= GetAccount(w, a).nonce < 0x1_0000_0000_0000_0000
    ensures GetAccount(Run(sha, w, ops), a).nonce == (GetAccount(w, a).nonce + Increments(ops, a)) % 0x1_0000_0000_0000_0000
    decreases |ops|
  {
    hide Apply, GetAccount;
    if ops != [] {
      NonceAfter(sha, w, ops[0], a);
      NonceCounts(sha, Apply(sha, w, ops[0]), ops[1..], a);
    }
  }

  /** A transfer moves the amount, also from an account to itself, or changes no account's value. */
  lemma TransferMoves(sha: Code -> Hash, w: World, a: Address, dst: Address, amount: int, b: Address)
    ensures var r := Apply(sha, w, Transfer(a, dst, amount));
            var delta := if !Covers(w, a, amount) then 0 else (if b == dst then amount else 0) - (if b == a then amount else 0);
            && GetAccount(r, b) == GetAccount(w, b).(balance := GetAccount(w, b).balance + delta)
            && r.code == w.code && r.live.storage == w.live.storage && r.snapshots == w.snapshots
  {
  }

  // ----- Snapshots -----

  predicate KeepsSnapshot(op: Op, id: int) { op.Revert? ==> op.id > id || op.id < 0 }

  /** Nothing but a revert to it or below it disturbs a saved layer. */
  lemma {:induction false} SavedLayersStay(sha: Code -> Hash, w: World, ops: seq<Op>, id: nat)
    requires id < |w.snapshots|
    requires forall op :: op in ops ==> KeepsSnapshot(op, id)
    ensures var r := Run(sha, w, ops); id < |r.snapshots| && r.snapshots[..id + 1] == w.snapshots[..id + 1]
    decreases |ops|
  {
    if ops != [] {
      assert KeepsSnapshot(ops[0], id);
      SavedLayersStay(sha, Apply(sha, w, ops[0]), ops[1..], id);
    }
  }

  // ----- Code is content-addressed -----

  /** The bytecodes an operation list stores. */
  function Codes(ops: seq<Op>): set<Code> {
    set op | op in ops && op.SetCode? :: op.code
  }

  /** The hash separates these codes, and takes none of them to the all-zeros hash of an empty account. */
  ghost predicate Separates(sha: Code -> Hash, codes: set<Code>) {
    && (forall c, d :: c in codes && d in codes && sha(c) == sha(d) ==> c == d)
    && (forall c :: c in codes ==> sha(c) != ZeroHash())
  }

  predicate LayerCoded(l: Layer, code: map<Hash, Code>) {
    forall a :: a in l.accounts ==> l.accounts[a].codeHash == ZeroHash() || l.accounts[a].codeHash in code
  }

  /** Every stored code sits under its own hash, and every account's code hash is stored or empty. */
  ghost predicate Coded(sha: Code -> Hash, w: World) {
    && (forall h :: h in w.code ==> sha(w.code[h]) == h)
    && LayerCoded(w.live, w.code)
    && (forall i :: 0 <= i < |w.snapshots| ==> LayerCoded(w.snapshots[i], w.code))
  }

  /** Overwriting an account with one whose code is stored, or empty. */
  lemma PutKeepsCoded(sha: Code -> Hash, w: World, a: Address, acc: Account)
    requires Coded(sha, w) && (acc.codeHash == ZeroHash() || acc.codeHash in w.code)
    ensures Coded(sha, PutAccount(w, a, acc)) && Coded(sha, Put(w, a, acc))
  {
  }

  lemma GetIsCoded(sha: Code -> Hash, w: World, a: Address)
    requires Coded(sha, w)
    ensures GetAccount(w, a).codeHash == ZeroHash() || GetAccount(w, a).codeHash in w.code
  {
  }

  lemma CodeKeepsCoded(sha: Code -> Hash, w: World, code: Code)
    requires Coded(sha, w)
    ensures Coded(sha, w.(code := w.code[sha(code) := code]))
  {
  }

  lemma LayersKeepCoded(sha: Code -> Hash, w: World, op: Op)
    requires Coded(sha, w) && (op.SetStorage? || op.Snapshot? || op.Revert?)
    ensures Coded(sha, Apply(sha, w, op)) && Apply(sha, w, op).code == w.code
  {
  }

  lemma CreditKeepsCoded(sha: Code -> Hash, w: World, a: Address, amount: int)
    requires Coded(sha, w)
    ensures Coded(sha, Credit(w, a, amount)) && Credit(w, a, amount).code == w.code
    ensures Coded(sha, Debit(w, a, amount)) && Debit(w, a, amount).code == w.code
  {
    hide Coded, GetAccount;
    var acc := GetAccount(w, a);
    GetIsCoded(sha, w, a);
    PutKeepsCoded(sha, w, a, acc);
    PutKeepsCoded(sha, w, a, acc.(balance := acc.balance + amount));
    PutKeepsCoded(sha, w, a, acc.(balance := acc.balance - amount));
  }

  /** Stored code stays, and only storing code adds any. */
  lemma ApplyKeepsCoded(sha: Code -> Hash, w: World, op: Op)
    requires Coded(sha, w)
    ensures Coded(sha, Apply(sha, w, op))
    ensures Apply(sha, w, op).code == if op.SetCode? then w.code[sha(op.code) := op.code] else w.code
  {
    hide Coded, GetAccount, Credit, Debit;
    match op {
      case SetBalance(a, amount) =>
        GetIsCoded(sha, w, a);
        PutKeepsCoded(sha, w, a, GetAccount(w, a).(balance := amount));
      case AddBalance(a, amount) => CreditKeepsCoded(sha, w, a, amount);
      case SubBalance(a, amount) => CreditKeepsCoded(sha, w, a, amount);
      case Transfer(a, dst, amount) =>
        CreditKeepsCoded(sha, w, a, amount);
        CreditKeepsCoded(sha, Debit(w, a, amount), dst, amount);
      case IncrementNonce(a) =>
        GetIsCoded(sha, w, a);
        PutKeepsCoded(sha, w, a, GetAccount(w, a).(nonce := (GetAccount(w, a).nonce + 1) % TWO_64));
      case SetCode(a, code) =>
        CodeKeepsCoded(sha, w, code);
        PutKeepsCoded(sha, w.(code := w.code[sha(code) := code]), a, GetAccount(w, a).(codeHash := sha(code)));
      case _ => LayersKeepCoded(sha, w, op);
    }
  }

  lemma {:induction false} RunKeepsCoded(sha: Code -> Hash, w: World, ops: seq<Op>)
    requires Coded(sha, w)
    ensures var r := Run(sha, w, ops);
            && Coded(sha, r) && w.code.Keys <= r.code.Keys && (forall h :: h in r.code ==> sha(r.code[h]) == h)
            && r.code.Values <= w.code.Values + Codes(ops)
    decreases |ops|
  {
    assert forall h :: h in w.code ==> sha(w.code[h]) == h;
    if ops != [] {
      hide Apply, Coded;
      ApplyKeepsCoded(sha, w, ops[0]);
      RunKeepsCoded(sha, Apply(sha, w, ops[0]), ops[1..]);
      assert Codes(ops[1..]) <= Codes(ops);
      StoredBy(sha, w, ops[0], ops);
    }
  }

  lemma StoredBy(sha: Code -> Hash, w: World, op: Op, ops: seq<Op>)
    requires op in ops
    ensures op.SetCode? ==> w.code[sha(op.code) := op.code].Values <= w.code.Values + Codes(ops)
  {
  }

  /**
   Take a snapshot, do anything that does not revert to it or below it, and
   revert to it: every account, storage slot and code reads as before, and the
   earlier snapshots are intact.
   */
  lemma RevertRestores(sha: Code -> Hash, w: World, ops: seq<Op>)
    requires Coded(sha, w)
    requires Separates(sha, w.code.Values + Codes(ops))
    requires forall op :: op in ops ==> KeepsSnapshot(op, |w.snapshots|)
    ensures var r := Apply(sha, Run(sha, Apply(sha, w, Snapshot), ops), Revert(|w.snapshots|));
            && r.live == w.live && r.snapshots == w.snapshots
            && (forall a :: GetAccount(r, a) == GetAccount(w, a))
            && (forall a, key :: GetStorage(r, a, key) == GetStorage(w, a, key))
            && (forall a :: GetCode(r, a) == GetCode(w, a))
  {
    hide Run, Coded, Separates, Codes, GetCode;
    var id := |w.snapshots|;
    var saved := Apply(sha, w, Snapshot);
    var after := Run(sha, saved, ops);
    SavedLayersStay(sha, saved, ops, id);
    assert after.snapshots[id] == after.snapshots[..id + 1][id];
    assert after.snapshots[..id] == after.snapshots[..id + 1][..id];
    ApplyKeepsCoded(sha, w, Snapshot);
    RunKeepsCoded(sha, saved, ops);
    var r := Apply(sha, after, Revert(id));
    forall a
      ensures GetCode(r, a) == GetCode(w, a)
    {
      CodeRestored(sha, w, r, w.code.Values + Codes(ops), a);
    }
  }

  /** The same accounts find the same code in a table that has only grown. */
  lemma CodeRestored(sha: Code -> Hash, w: World, r: World, codes: set<Code>, a: Address)
    requires Coded(sha, w) && r.live == w.live && Separates(sha, codes)
    requires w.code.Keys <= r.code.Keys && w.code.Values <= codes && r.code.Values <= codes
    requires forall h :: h in r.code ==> sha(r.code[h]) == h
    ensures GetCode(r, a) == GetCode(w, a)
  {
    if a in w.live.accounts {
      var h := w.live.accounts[a].codeHash;
      if h in w.code {
        assert r.code[h] in r.code.Values && w.code[h] in w.code.Values;
      }
    }
  }

  /** The code table is not part of a snapshot, so without that separation a revert can leave another code behind. */
  lemma CollisionSurvivesRevert(sha: Code -> Hash, w: World, a: Address, b: Address, code: Code)
    requires GetCode(w, a).Some? && GetCode(w, a).value != code
    requires sha(code) == w.live.accounts[a].codeHash
    ensures var r := Apply(sha, Run(sha, Apply(sha, w, Snapshot), [SetCode(b, code)]), Revert(|w.snapshots|));
            GetCode(r, a) == Some(code) != GetCode(w, a)
  {
  }
}
