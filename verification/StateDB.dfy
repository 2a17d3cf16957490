/**
 The world state as the program keeps it: maps of account objects that hold
 mutable big integers, storage objects, and deep-copied snapshots. Each method is
 proved against the operation of the same name in StateSpec.

 Every account, balance and storage object carries the ghost address and layer
 number it was made for. No two layers share a number, so no live object is ever
 part of a snapshot.
 */
module StateDB {
  import opened Prelude
  import Spec = StateSpec

  class BigInt {
    ghost const layer: nat
    ghost const addr: Address
    var v: int

    constructor (v: int, ghost layer: nat, ghost addr: Address)
      ensures this.v == v && this.layer == layer && this.addr == addr
    {
      this.v, this.layer, this.addr := v, layer, addr;
    }
  }

  class Account {
    ghost const layer: nat
    ghost const addr: Address
    var nonce: int
    var balance: BigInt
    var codeHash: Hash
    var root: Hash

    constructor (nonce: int, balance: BigInt, codeHash: Hash, root: Hash, ghost layer: nat, ghost addr: Address)
      ensures this.nonce == nonce && this.balance == balance && this.codeHash == codeHash && this.root == root
      ensures this.layer == layer && this.addr == addr
    {
      this.nonce, this.balance, this.codeHash, this.root := nonce, balance, codeHash, root;
      this.layer, this.addr := layer, addr;
    }
  }

  class Storage {
    ghost const layer: nat
    ghost const addr: Address
    var slots: map<Hash, Hash>

    constructor (slots: map<Hash, Hash>, ghost layer: nat, ghost addr: Address)
      ensures this.slots == slots && this.layer == layer && this.addr == addr
    {
      this.slots, this.layer, this.addr := slots, layer, addr;
    }
  }

  /** The two maps of the live state, or of a snapshot. */
  datatype Layer = Layer(accounts: map<Address, Account>, storage: map<Address, Storage>)

  /** Layer l of number n, whose objects are all in repr, holds the values v. */
  ghost predicate Represents(l: Layer, n: nat, v: Spec.Layer, repr: set<object>)
    reads repr
  {
    && l.accounts.Keys == v.accounts.Keys
    && l.storage.Keys == v.storage.Keys
    && (forall a :: a in l.accounts ==> IsAccount(l.accounts[a], n, a, v.accounts[a], repr))
    && (forall a :: a in l.storage ==> IsStorage(l.storage[a], n, a, v.storage[a], repr))
  }

  ghost predicate IsAccount(acc: Account, n: nat, a: Address, v: Spec.Account, repr: set<object>)
    reads repr
  {
    && acc in repr && acc.layer == n && acc.addr == a
    && acc.balance in repr && acc.balance.layer == n && acc.balance.addr == a
    && v == Spec.Account(acc.nonce, acc.balance.v, acc.codeHash, acc.root)
  }

  ghost predicate IsStorage(st: Storage, n: nat, a: Address, v: Spec.Slots, repr: set<object>)
    reads repr
  {
    st in repr && st.layer == n && st.addr == a && st.slots == v
  }

  lemma Widen(l: Layer, n: nat, v: Spec.Layer, repr: set<object>, more: set<object>)
    requires Represents(l, n, v, repr) && repr <= more
    ensures Represents(l, n, v, more)
  {
  }

  // ----- Framing -----

  /** Unless it was made for address a of layer n, the object has not changed. */
  twostate predicate Kept(o: object, n: int, a: Address)
    reads o
  {
    if o is Account then
      var acc := o as Account;
      (acc.layer != n || acc.addr != a) ==>
        old(acc.nonce) == acc.nonce && old(acc.balance) == acc.balance &&
        old(acc.codeHash) == acc.codeHash && old(acc.root) == acc.root
    else if o is BigInt then
      var num := o as BigInt;
      (num.layer != n || num.addr != a) ==> old(num.v) == num.v
    else if o is Storage then
      var st := o as Storage;
      (st.layer != n || st.addr != a) ==> old(st.slots) == st.slots
    else true
  }

  twostate predicate OnlyAt(repr: set<object>, n: int, a: Address)
    reads repr
  {
    forall o :: o in repr ==> Kept(o, n, a)
  }

  /** Layers and the objects they are made of. */
  datatype Held = Held(layers: seq<Layer>, repr: set<object>)

  /** Layers of other numbers do not notice. */
  twostate lemma OthersUndisturbed(h: Held, new ms: seq<nat>, new vs: seq<Spec.Layer>, new more: set<object>,
                                   new n: int, new a: Address)
    requires |h.layers| == |ms| == |vs|
    requires forall i :: 0 <= i < |ms| ==> ms[i] != n && old(Represents(h.layers[i], ms[i], vs[i], h.repr))
    requires OnlyAt(h.repr, n, a) && h.repr <= more
    ensures forall i :: 0 <= i < |ms| ==> Represents(h.layers[i], ms[i], vs[i], more)
  {
    forall i, b | 0 <= i < |ms| && b in h.layers[i].accounts
      ensures IsAccount(h.layers[i].accounts[b], ms[i], b, vs[i].accounts[b], more)
    {
      assert old(IsAccount(h.layers[i].accounts[b], ms[i], b, vs[i].accounts[b], h.repr));
    }
    forall i, b | 0 <= i < |ms| && b in h.layers[i].storage
      ensures IsStorage(h.layers[i].storage[b], ms[i], b, vs[i].storage[b], more)
    {
      assert old(IsStorage(h.layers[i].storage[b], ms[i], b, vs[i].storage[b], h.repr));
    }
  }

  /** The layer itself changes at that address alone. */
  twostate lemma LiveAt(h: Held, new n: nat, new v: Spec.Layer, new more: set<object>, new a: Address)
    requires |h.layers| == 1 && old(Represents(h.layers[0], n, v, h.repr))
    requires OnlyAt(h.repr, n, a) && h.repr <= more
    ensures forall b :: b in h.layers[0].accounts && b != a ==> IsAccount(h.layers[0].accounts[b], n, b, v.accounts[b], more)
    ensures forall b :: b in h.layers[0].storage && b != a ==> IsStorage(h.layers[0].storage[b], n, b, v.storage[b], more)
  {
    forall b | b in h.layers[0].accounts && b != a
      ensures IsAccount(h.layers[0].accounts[b], n, b, v.accounts[b], more)
    {
      assert old(IsAccount(h.layers[0].accounts[b], n, b, v.accounts[b], h.repr));
    }
    forall b | b in h.layers[0].storage && b != a
      ensures IsStorage(h.layers[0].storage[b], n, b, v.storage[b], more)
    {
      assert old(IsStorage(h.layers[0].storage[b], n, b, v.storage[b], h.repr));
    }
  }

  class StateDB {
    const sha: Spec.Code -> Hash
    var accounts: map<Address, Account>
    var storage: map<Address, Storage>
    var code: map<Hash, Spec.Code>
    var dirty: set<Address>
    var snapshots: seq<Layer>

    ghost var world: Spec.World
    ghost var Repr: set<object>
    ghost var live: nat
    ghost var saved: seq<nat>
    ghost var next: nat

    ghost predicate Valid()
      reads this, Repr
      ensures Valid() ==> this in Repr
    {
      && this in Repr
      && world.code == code && world.dirty == dirty
      && Represents(Layer(accounts, storage), live, world.live, Repr)
      && |saved| == |snapshots| == |world.snapshots|
      && live < next
      && (forall i :: 0 <= i < |saved| ==> saved[i] < next && saved[i] != live)
      && (forall i, j :: 0 <= i < j < |saved| ==> saved[i] != saved[j])
      && (forall i :: 0 <= i < |snapshots| ==> Represents(snapshots[i], saved[i], world.snapshots[i], Repr))
    }

    constructor (sha: Spec.Code -> Hash)
      ensures Valid() && fresh(Repr) && this.sha == sha
      ensures world == Spec.World(Spec.Layer(map[], map[]), map[], {}, [])
    {
      this.sha := sha;
      accounts, storage, code, dirty, snapshots := map[], map[], map[], {}, [];
      world := Spec.World(Spec.Layer(map[], map[]), map[], {}, []);
      Repr, live, saved, next := {this}, 0, [], 1;
    }

    /** The archive and the bookkeeping as they were. */
    twostate predicate Settled()
      reads this
    {
      && world.code == code && world.dirty == dirty && world.snapshots == old(world.snapshots)
      && live == old(live) && next == old(next) && saved == old(saved) && snapshots == old(snapshots)
    }

    /** An operation on the account at a is done when the live layer holds the new value there and nothing else changed. */
    twostate lemma AccountDone(new a: Address, new v: Spec.Account)
      requires old(Valid()) && Settled() && OnlyAt(old(Repr), live, a) && old(Repr) <= Repr
      requires a in accounts && accounts == old(accounts)[a := accounts[a]] && storage == old(storage)
      requires a in storage ==> unchanged(storage[a])
      requires world.live == old(world.live).(accounts := old(world.live.accounts)[a := v])
      requires IsAccount(accounts[a], live, a, v, Repr)
      ensures Valid()
    {
      OthersUndisturbed(Held(snapshots, old(Repr)), saved, world.snapshots, Repr, live, a);
      LiveAt(Held([Layer(old(accounts), old(storage))], old(Repr)), live, old(world.live), Repr, a);
      assert a in storage ==> old(IsStorage(storage[a], live, a, world.live.storage[a], Repr));
    }

    /** Likewise for the storage at a. */
    twostate lemma StorageDone(new a: Address, new v: Spec.Slots)
      requires old(Valid()) && Settled() && OnlyAt(old(Repr), live, a) && old(Repr) <= Repr
      requires a in storage && storage == old(storage)[a := storage[a]] && accounts == old(accounts)
      requires a in accounts ==> unchanged(accounts[a]) && unchanged(accounts[a].balance)
      requires world.live == old(world.live).(storage := old(world.live.storage)[a := v])
      requires IsStorage(storage[a], live, a, v, Repr)
      ensures Valid()
    {
      OthersUndisturbed(Held(snapshots, old(Repr)), saved, world.snapshots, Repr, live, a);
      LiveAt(Held([Layer(old(accounts), old(storage))], old(Repr)), live, old(world.live), Repr, a);
      assert a in accounts ==> old(IsAccount(accounts[a], live, a, world.live.accounts[a], Repr));
    }

    /** When no account or storage object changes, every layer still holds its values. */
    twostate lemma LayersKept(new more: set<object>, new any: Address)
      requires old(Valid()) && OnlyAt(old(Repr), -1, any) && old(Repr) <= more
      ensures Represents(Layer(old(accounts), old(storage)), old(live), old(world.live), more)
      ensures forall i :: 0 <= i < |old(snapshots)| ==>
        Represents(old(snapshots)[i], old(saved)[i], old(world.snapshots)[i], more)
    {
      OthersUndisturbed(Held(old(snapshots), old(Repr)), old(saved), old(world.snapshots), more, -1, any);
      OthersUndisturbed(Held([Layer(old(accounts), old(storage))], old(Repr)), [old(live)], [old(world.live)], more, -1, any);
      assert Represents(Layer(old(accounts), old(storage)), [old(live)][0], [old(world.live)][0], more);
    }

    /** What the live layer holds at one address. */
    lemma At(a: Address)
      requires Valid()
      ensures this in Repr && world.code == code && world.dirty == dirty
      ensures accounts.Keys == world.live.accounts.Keys && storage.Keys == world.live.storage.Keys
      ensures a in accounts ==> IsAccount(accounts[a], live, a, world.live.accounts[a], Repr)
      ensures a in storage ==> IsStorage(storage[a], live, a, world.live.storage[a], Repr)
    {
    }

    // ----- Accounts -----

    method EnsureAccount(a: Address) returns (acc: Account)
      requires Valid()
      modifies this
      ensures Valid() && fresh(Repr - old(Repr)) && old(Repr) <= Repr
      ensures a in accounts && acc == accounts[a] && live == old(live) && this in Repr
      ensures world == Spec.PutAccount(old(world), a, Spec.GetAccount(old(world), a))
    {
      hide Represents;
      At(a);
      if a !in accounts {
        var zero := new BigInt(0, live, a);
        var made := new Account(0, zero, ZeroHash(), ZeroHash(), live, a);
        accounts := accounts[a := made];
        Repr := Repr + {zero, made};
      }
      world := Spec.PutAccount(world, a, Spec.GetAccount(world, a));
      acc := accounts[a];
      AccountDone(a, Spec.GetAccount(old(world), a));
    }

    /** A copy: the caller gets no reference to what the state holds. */
    method GetAccount(a: Address) returns (r: Account)
      requires Valid()
      ensures fresh(r) && fresh(r.balance)
      ensures Spec.Account(r.nonce, r.balance.v, r.codeHash, r.root) == Spec.GetAccount(world, a)
    {
      hide Represents;
      At(a);
      if a in accounts {
        var acc := accounts[a];
        var copy := new BigInt(acc.balance.v, live, a);
        r := new Account(acc.nonce, copy, acc.codeHash, acc.root, live, a);
      } else {
        var zero := new BigInt(0, live, a);
        r := new Account(0, zero, ZeroHash(), ZeroHash(), live, a);
      }
    }

    /** Give an existing account a new balance object. */
    method ReplaceBalance(a: Address, n: int)
      requires Valid() && a in accounts
      modifies Repr
      ensures Valid() && fresh(Repr - old(Repr))
      ensures a in old(world).live.accounts
      ensures world == Spec.Put(old(world), a, old(world).live.accounts[a].(balance := n))
    {
      hide Represents;
      At(a);
      ghost var v := world.live.accounts[a].(balance := n);
      var copy := new BigInt(n, live, a);
      accounts[a].balance := copy;
      Repr := Repr + {copy};
      dirty := dirty + {a};
      world := Spec.Put(world, a, v);
      AccountDone(a, v);
    }

    /** Change an existing account's balance object in place. */
    method ShiftBalance(a: Address, delta: int)
      requires Valid() && a in accounts
      modifies Repr
      ensures Valid() && Repr == old(Repr)
      ensures a in old(world).live.accounts
      ensures var v := old(world).live.accounts[a]; world == Spec.Put(old(world), a, v.(balance := v.balance + delta))
    {
      hide Represents;
      At(a);
      ghost var v := world.live.accounts[a];
      var balance := accounts[a].balance;
      balance.v := balance.v + delta;
      dirty := dirty + {a};
      world := Spec.Put(world, a, v.(balance := v.balance + delta));
      AccountDone(a, v.(balance := v.balance + delta));
    }

    method SetBalance(a: Address, balance: BigInt)
      requires Valid() && balance !in Repr
      modifies Repr
      ensures Valid() && fresh(Repr - old(Repr))
      ensures world == Spec.Apply(sha, old(world), Spec.SetBalance(a, old(balance.v)))
    {
      hide Represents;
      var acc := EnsureAccount(a);
      ReplaceBalance(a, balance.v);
    }

    method AddBalance(a: Address, amount: BigInt)
      requires Valid() && amount !in Repr
      modifies Repr
      ensures Valid() && fresh(Repr - old(Repr))
      ensures world == Spec.Apply(sha, old(world), Spec.AddBalance(a, old(amount.v)))
    {
      hide Represents;
      var acc := EnsureAccount(a);
      ShiftBalance(a, amount.v);
    }

    method SubBalance(a: Address, amount: BigInt) returns (ok: bool)
      requires Valid() && amount !in Repr
      modifies Repr
      ensures Valid() && fresh(Repr - old(Repr))
      ensures ok == Spec.Covers(old(world), a, old(amount.v))
      ensures world == Spec.Apply(sha, old(world), Spec.SubBalance(a, old(amount.v)))
    {
      hide Represents;
      var acc := EnsureAccount(a);
      At(a);
      if acc.balance.v < amount.v { return false; }
      ShiftBalance(a, -amount.v);
      return true;
    }

    method Transfer(src: Address, dst: Address, amount: BigInt) returns (ok: bool)
      requires Valid() && amount !in Repr
      modifies Repr
      ensures Valid() && fresh(Repr - old(Repr))
      ensures ok == Spec.Covers(old(world), src, old(amount.v))
      ensures world == Spec.Apply(sha, old(world), Spec.Transfer(src, dst, old(amount.v)))
    {
      ok := SubBalance(src, amount);
      if !ok { return; }
      AddBalance(dst, amount);
    }

    method GetNonce(a: Address) returns (nonce: int)
      requires Valid()
      ensures nonce == Spec.GetAccount(world, a).nonce
    {
      At(a);
      if a in accounts { return accounts[a].nonce; }
      return 0;
    }

    method IncrementNonce(a: Address)
      requires Valid()
      modifies Repr
      ensures Valid() && fresh(Repr - old(Repr))
      ensures world == Spec.Apply(sha, old(world), Spec.IncrementNonce(a))
    {
      hide Represents;
      var acc := EnsureAccount(a);
      BumpNonce(a);
    }

    method BumpNonce(a: Address)
      requires Valid() && a in accounts
      modifies Repr
      ensures Valid() && Repr == old(Repr)
      ensures a in old(world).live.accounts
      ensures var v := old(world).live.accounts[a]; world == Spec.Put(old(world), a, v.(nonce := (v.nonce + 1) % TWO_64))
    {
      hide Represents;
      At(a);
      ghost var v := world.live.accounts[a];
      var acc := accounts[a];
      acc.nonce := (acc.nonce + 1) % TWO_64;
      dirty := dirty + {a};
      world := Spec.Put(world, a, v.(nonce := (v.nonce + 1) % TWO_64));
      AccountDone(a, v.(nonce := (v.nonce + 1) % TWO_64));
    }

    // ----- Contract code -----

    method SetCode(a: Address, code: Spec.Code)
      requires Valid()
      modifies Repr
      ensures Valid() && fresh(Repr - old(Repr))
      ensures world == Spec.Apply(sha, old(world), Spec.SetCode(a, code))
    {
      hide Represents;
      var hash := sha(code);
      StoreCode(hash, code);
      var acc := EnsureAccount(a);
      SetCodeHash(a, hash);
    }

    method StoreCode(hash: Hash, code: Spec.Code)
      requires Valid()
      modifies this
      ensures Valid() && Repr == old(Repr)
      ensures world == old(world).(code := old(world).code[hash := code])
    {
      hide Represents;
      this.code := this.code[hash := code];
      world := world.(code := this.code);
      LayersKept(Repr, seq(20, _ => 0));
    }

    method SetCodeHash(a: Address, hash: Hash)
      requires Valid() && a in accounts
      modifies Repr
      ensures Valid() && Repr == old(Repr)
      ensures a in old(world).live.accounts
      ensures world == Spec.Put(old(world), a, old(world).live.accounts[a].(codeHash := hash))
    {
      hide Represents;
      At(a);
      ghost var v := world.live.accounts[a].(codeHash := hash);
      accounts[a].codeHash := hash;
      dirty := dirty + {a};
      world := Spec.Put(world, a, v);
      AccountDone(a, v);
    }

    method GetCode(a: Address) returns (r: Option<Spec.Code>)
      requires Valid()
      ensures r == Spec.GetCode(world, a)
    {
      At(a);
      if a !in accounts { return None; }
      var h := accounts[a].codeHash;
      return if h in code then Some(code[h]) else None;
    }

    // ----- Contract storage -----

    method GetStorage(a: Address, key: Hash) returns (value: Hash)
      requires Valid()
      ensures value == Spec.GetStorage(world, a, key)
    {
      At(a);
      if a in storage { return if key in storage[a].slots then storage[a].slots[key] else ZeroHash(); }
      return ZeroHash();
    }

    method SetStorage(a: Address, key: Hash, value: Hash)
      requires Valid()
      modifies Repr
      ensures Valid() && fresh(Repr - old(Repr))
      ensures world == Spec.Apply(sha, old(world), Spec.SetStorage(a, key, value))
      ensures Spec.GetStorage(world, a, key) == value
      ensures forall b, k :: b != a || k != key ==> Spec.GetStorage(world, b, k) == Spec.GetStorage(old(world), b, k)
    {
      forall b, k {
        Spec.StorageAfterWrite(sha, world, a, key, value, b, k);
      }
      hide Represents, Spec.GetStorage;
      At(a);
      if a !in storage { MakeStorage(a); }
      SetSlot(a, key, value);
    }

    method MakeStorage(a: Address)
      requires Valid() && a !in storage
      modifies this
      ensures Valid() && fresh(Repr - old(Repr)) && a in storage
      ensures world == old(world).(live := old(world).live.(storage := old(world).live.storage[a := map[]]))
    {
      hide Represents;
      At(a);
      var made := new Storage(map[], live, a);
      storage := storage[a := made];
      Repr := Repr + {made};
      world := world.(live := world.live.(storage := world.live.storage[a := map[]]));
      StorageDone(a, map[]);
    }

    method SetSlot(a: Address, key: Hash, value: Hash)
      requires Valid() && a in storage
      modifies Repr
      ensures Valid() && Repr == old(Repr)
      ensures world == Spec.Apply(sha, old(world), Spec.SetStorage(a, key, value))
    {
      hide Represents;
      At(a);
      var store := storage[a];
      store.slots := store.slots[key := value];
      dirty := dirty + {a};
      world := Spec.Apply(sha, world, Spec.SetStorage(a, key, value));
      StorageDone(a, store.slots);
    }

    // ----- Snapshot / revert -----

    lemma SameKeys()
      requires Valid()
      ensures accounts.Keys == world.live.accounts.Keys && storage.Keys == world.live.storage.Keys
    {
    }

    /** Copies of every account, numbered n. */
    method CopyAccounts(ghost n: nat) returns (copy: map<Address, Account>, ghost made: set<object>)
      requires Valid()
      ensures fresh(made) && copy.Keys == accounts.Keys
      ensures forall a :: a in copy ==> IsAccount(copy[a], n, a, world.live.accounts[a], made)
    {
      SameKeys();
      hide Valid, Represents;
      copy, made := map[], {};
      var todo := accounts.Keys;
      while todo != {}
        invariant accounts.Keys == world.live.accounts.Keys
        invariant todo <= accounts.Keys && copy.Keys == accounts.Keys - todo && fresh(made)
        invariant forall a :: a in copy ==> IsAccount(copy[a], n, a, world.live.accounts[a], made)
        decreases todo
      {
        var k :| k in todo;
        At(k);
        var v := accounts[k];
        var balance := new BigInt(v.balance.v, n, k);
        var acc := new Account(v.nonce, balance, v.codeHash, v.root, n, k);
        copy := copy[k := acc];
        made := made + {balance, acc};
        todo := todo - {k};
      }
    }

    method CopySlots(slots: map<Hash, Hash>) returns (c: map<Hash, Hash>)
      ensures c == slots
    {
      c := map[];
      var todo := slots.Keys;
      while todo != {}
        invariant todo <= slots.Keys && c.Keys == slots.Keys - todo
        invariant forall k :: k in c ==> c[k] == slots[k]
        decreases todo
      {
        var k :| k in todo;
        c := c[k := slots[k]];
        todo := todo - {k};
      }
    }

    method CopyStorage(ghost n: nat) returns (copy: map<Address, Storage>, ghost made: set<object>)
      requires Valid()
      ensures fresh(made) && copy.Keys == storage.Keys
      ensures forall a :: a in copy ==> IsStorage(copy[a], n, a, world.live.storage[a], made)
    {
      SameKeys();
      hide Valid, Represents;
      copy, made := map[], {};
      var todo := storage.Keys;
      while todo != {}
        invariant storage.Keys == world.live.storage.Keys
        invariant todo <= storage.Keys && copy.Keys == storage.Keys - todo && fresh(made)
        invariant forall a :: a in copy ==> IsStorage(copy[a], n, a, world.live.storage[a], made)
        decreases todo
      {
        var k :| k in todo;
        At(k);
        var slots := CopySlots(storage[k].slots);
        var c := new Storage(slots, n, k);
        copy := copy[k := c];
        made := made + {c};
        todo := todo - {k};
      }
    }

    lemma IsCopy(copy: Layer, n: nat, made: set<object>)
      requires Valid()
      requires copy.accounts.Keys == accounts.Keys && copy.storage.Keys == storage.Keys
      requires forall a :: a in copy.accounts ==> IsAccount(copy.accounts[a], n, a, world.live.accounts[a], made)
      requires forall a :: a in copy.storage ==> IsStorage(copy.storage[a], n, a, world.live.storage[a], made)
      ensures Represents(copy, n, world.live, made)
    {
    }

    method Archive(copy: Layer, ghost made: set<object>)
      requires Valid() && Represents(copy, next, world.live, made) && this !in made
      modifies `snapshots, `saved, `next, `Repr, `world
      ensures Valid() && Repr == old(Repr) + made
      ensures world == Spec.Apply(sha, old(world), Spec.Snapshot)
    {
      hide Valid, Represents;
      Counts();
      ghost var n, v, more := next, world.live, Repr + made;
      snapshots := snapshots + [copy];
      saved, next := saved + [n], n + 1;
      Repr := more;
      world := Spec.Apply(sha, world, Spec.Snapshot);
      Widen(copy, n, v, made, more);
      Archived(copy);
    }

    lemma Counts()
      requires Valid()
      ensures this in Repr && |saved| == |snapshots| == |world.snapshots|
    {
    }

    /** One layer more, with a number of its own, in an archive that is otherwise as it was. */
    twostate lemma Archived(new copy: Layer)
      requires old(Valid()) && old(Repr) <= Repr
      requires accounts == old(accounts) && storage == old(storage) && code == old(code) && dirty == old(dirty)
      requires snapshots == old(snapshots) + [copy] && saved == old(saved) + [old(next)]
      requires next == old(next) + 1 && live == old(live)
      requires world == old(world).(snapshots := old(world).snapshots + [old(world).live])
      requires Represents(copy, old(next), old(world).live, Repr) && OnlyAt(old(Repr), -1, seq(20, _ => 0))
      ensures Valid()
    {
      hide Represents;
      LayersKept(Repr, seq(20, _ => 0));
    }

    method Snapshot() returns (id: nat)
      requires Valid()
      modifies this
      ensures Valid() && fresh(Repr - old(Repr))
      ensures id == |old(world).snapshots|
      ensures world == Spec.Apply(sha, old(world), Spec.Snapshot)
    {
      var accCopy, accMade := CopyAccounts(next);
      var storCopy, storMade := CopyStorage(next);
      IsCopy(Layer(accCopy, storCopy), next, accMade + storMade);
      hide Represents;
      Archive(Layer(accCopy, storCopy), accMade + storMade);
      id := |snapshots| - 1;
    }

    /** A saved layer live again, and the archive cut off at it. */
    twostate lemma Restored(new id: nat)
      requires old(Valid()) && id < |old(snapshots)| == |old(saved)| == |old(world).snapshots|
      requires accounts == old(snapshots)[id].accounts && storage == old(snapshots)[id].storage && live == old(saved)[id]
      requires snapshots == old(snapshots)[..id] && saved == old(saved)[..id]
      requires code == old(code) && dirty == {} && next == old(next) && Repr == old(Repr)
      requires var was := old(world);
               world == was.(live := was.snapshots[id], snapshots := was.snapshots[..id], dirty := {})
      requires OnlyAt(old(Repr), -1, seq(20, _ => 0))
      ensures Valid()
    {
      hide Represents;
      LayersKept(Repr, seq(20, _ => 0));
    }

    method RevertToSnapshot(id: int) returns (ok: bool)
      requires Valid()
      modifies this
      ensures Valid() && Repr == old(Repr)
      ensures ok == (0 <= id < |old(world).snapshots|)
      ensures world == Spec.Apply(sha, old(world), Spec.Revert(id))
    {
      hide Valid, Represents;
      Counts();
      if id < 0 || id >= |snapshots| { return false; }
      var snap := snapshots[id];
      accounts, storage := snap.accounts, snap.storage;
      live := saved[id];
      snapshots, saved := snapshots[..id], saved[..id];
      dirty := {};
      world := Spec.Apply(sha, world, Spec.Revert(id));
      Restored(id);
      return true;
    }

    // ----- Runs -----

    method Perform(op: Spec.Op)
      requires Valid()
      modifies Repr
      ensures Valid() && fresh(Repr - old(Repr))
      ensures world == Spec.Apply(sha, old(world), op)
    {
      hide Valid, Represents, Spec.Apply;
      match op {
        case SetBalance(a, amount) =>
          var n := new BigInt(amount, 0, a);
          SetBalance(a, n);
        case AddBalance(a, amount) =>
          var n := new BigInt(amount, 0, a);
          AddBalance(a, n);
        case SubBalance(a, amount) =>
          var n := new BigInt(amount, 0, a);
          var ok := SubBalance(a, n);
        case Transfer(a, dst, amount) =>
          var n := new BigInt(amount, 0, a);
          var ok := Transfer(a, dst, n);
        case IncrementNonce(a) => IncrementNonce(a);
        case SetCode(a, c) => SetCode(a, c);
        case SetStorage(a, key, value) => SetStorage(a, key, value);
        case Snapshot => var id := Snapshot();
        case Revert(id) => var ok := RevertToSnapshot(id);
      }
    }

    method Replay(ops: seq<Spec.Op>)
      requires Valid()
      modifies Repr
      ensures Valid() && fresh(Repr - old(Repr))
      ensures world == Spec.Run(sha, old(world), ops)
      decreases |ops|
    {
      hide Valid;
      if ops != [] {
        Perform(ops[0]);
        Replay(ops[1..]);
      }
    }

    /** Snapshot, run anything that keeps the snapshot, revert: no query can tell the difference. */
    method Speculate(ops: seq<Spec.Op>)
      requires Valid() && Spec.Coded(sha, world)
      requires Spec.Separates(sha, world.code.Values + Spec.Codes(ops))
      requires forall op :: op in ops ==> Spec.KeepsSnapshot(op, |world.snapshots|)
      modifies Repr
      ensures Valid() && fresh(Repr - old(Repr))
      ensures world.snapshots == old(world.snapshots)
      ensures forall a :: Spec.GetAccount(world, a) == Spec.GetAccount(old(world), a)
      ensures forall a, key :: Spec.GetStorage(world, a, key) == Spec.GetStorage(old(world), a, key)
      ensures forall a :: Spec.GetCode(world, a) == Spec.GetCode(old(world), a)
    {
      Spec.RevertRestores(sha, world, ops);
      hide Valid, Spec.Apply, Spec.GetAccount, Spec.GetStorage, Spec.GetCode, Spec.Coded, Spec.Separates;
      var id := Snapshot();
      Replay(ops);
      var ok := RevertToSnapshot(id);
    }
  }
}
