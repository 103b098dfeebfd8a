/**
 * The write cache: a table of accounts per slot, read through to a remote
 * loader, with byte counts per slot and over all slots.
 */
module AccountsCache {
  import opened Common

  datatype Account = Account(lamports: nat, data: seq<nat>)

  // ----- sums -----

  ghost function Sum<K>(m: map<K, nat>): (r: nat) {
    if m == map[] then 0 else
    var k :| k in m;
    m[k] + Sum(m - {k})
  }

  lemma {:induction false} SumWithout<K>(m: map<K, nat>, k: K)
    requires k in m
    ensures Sum(m) == m[k] + Sum(m - {k})
    decreases |m|
  {
    var x :| x in m && Sum(m) == m[x] + Sum(m - {x});
    if x != k {
      SumWithout(m - {x}, k);
      SumWithout(m - {k}, x);
      assert (m - {x}) - {k} == (m - {k}) - {x};
    }
  }

  lemma SumPut<K>(m: map<K, nat>, k: K, n: nat)
    ensures Sum(m[k := n]) == Sum(m) + n - if k in m then m[k] else 0
  {
    SumWithout(m[k := n], k);
    if k in m {
      SumWithout(m, k);
      assert m[k := n] - {k} == m - {k};
    } else {
      assert m[k := n] - {k} == m;
    }
  }

  type Table = map<Pubkey, Account>

  ghost function Put(table: Table, k: Pubkey, account: Account): (r: Table) {
    table[k := account]
  }

  ghost function Lengths(table: Table): (r: map<Pubkey, nat>) {
    map k | k in table :: |table[k].data|
  }

  /** The bytes of all accounts of a table. */
  ghost function Bytes(table: Table): (r: nat) {
    Sum(Lengths(table))
  }

  lemma BytesPut(table: Table, k: Pubkey, account: Account)
    ensures Bytes(Put(table, k, account)) == Bytes(table) + |account.data| - if k in table then |table[k].data| else 0
    ensures k in table ==> |table[k].data| <= Bytes(table)
  {
    SumPut(Lengths(table), k, |account.data|);
    assert Lengths(Put(table, k, account)) == Lengths(table)[k := |account.data|];
    if k in table { SumWithout(Lengths(table), k); }
  }

  // ----- what the cache holds -----

  type Contents = map<(Slot, Pubkey), Account>

  datatype Op =
    | Store(slot: Slot, key: Pubkey, account: Account)
    | Load(slot: Slot, key: Pubkey, remote: Option<Account>)
    | RemoveSlot(slot: Slot)
    | RemoveSlotsLe(maxRoot: Slot)

  function Get(c: Contents, slot: Slot, k: Pubkey): (r: Option<Account>) {
    if (slot, k) in c then Some(c[(slot, k)]) else None
  }

  /** An answer of the remote loader is kept; otherwise a load changes nothing. */
  function After(c: Contents, op: Op): (r: Contents) {
    match op
    case Store(slot, k, account) => c[(slot, k) := account]
    case Load(slot, k, remote) =>
      if (slot, k) !in c && remote.Some? then c[(slot, k) := remote.value] else c
    case RemoveSlot(slot) => map p | p in c && p.0 != slot :: c[p]
    case RemoveSlotsLe(maxRoot) => map p | p in c && p.0 > maxRoot :: c[p]
  }

  function Loaded(c: Contents, op: Op): (r: Option<Account>)
    requires op.Load?
  {
    if (op.slot, op.key) in c then Some(c[(op.slot, op.key)]) else op.remote
  }

  /** What is held of a key after an operation. */
  lemma HeldAfter(c: Contents, slot: Slot, k: Pubkey, s: Slot, x: Pubkey, account: Account, remote: Option<Account>)
    ensures Get(After(c, Store(s, x, account)), slot, k) ==
              if (s, x) == (slot, k) then Some(account) else Get(c, slot, k)
    ensures Get(After(c, Load(s, x, remote)), slot, k) ==
              if (s, x) == (slot, k) && Get(c, slot, k).None? then remote else Get(c, slot, k)
    ensures Get(After(c, RemoveSlot(s)), slot, k) == if s == slot then None else Get(c, slot, k)
    ensures Get(After(c, RemoveSlotsLe(s)), slot, k) == if slot <= s then None else Get(c, slot, k)
    ensures Loaded(c, Load(s, x, remote)) == if Get(c, s, x).Some? then Get(c, s, x) else remote
  {
  }

  /** The operation neither stores the key nor removes its slot. */
  predicate Leaves(op: Op, slot: Slot, k: Pubkey) {
    match op
    case Store(s, x, _) => s != slot || x != k
    case Load(_, _, _) => true
    case RemoveSlot(s) => s != slot
    case RemoveSlotsLe(maxRoot) => maxRoot < slot
  }

  ghost function AfterAll(c: Contents, ops: seq<Op>): (r: Contents) {
    if ops == [] then c else After(AfterAll(c, ops[..|ops| - 1]), ops[|ops| - 1])
  }

  lemma {:induction false} StaysLoaded(c: Contents, ops: seq<Op>, slot: Slot, k: Pubkey, account: Account)
    requires Get(c, slot, k) == Some(account)
    requires forall i :: 0 <= i < |ops| ==> Leaves(ops[i], slot, k)
    ensures Get(AfterAll(c, ops), slot, k) == Some(account)
    decreases |ops|
  {
    if ops != [] {
      StaysLoaded(c, ops[..|ops| - 1], slot, k, account);
      assert Leaves(ops[|ops| - 1], slot, k);
    }
  }

  /**
   * What a load once returned it returns again, whatever the remote loader
   * answers then, until the key is stored or its slot removed.
   */
  lemma LoadIsStable(c: Contents, first: Op, ops: seq<Op>, again: Op)
    requires first.Load? && again.Load? && again.slot == first.slot && again.key == first.key
    requires Loaded(c, first).Some?
    requires forall i :: 0 <= i < |ops| ==> Leaves(ops[i], first.slot, first.key)
    ensures Loaded(AfterAll(After(c, first), ops), again) == Loaded(c, first)
  {
    StaysLoaded(After(c, first), ops, first.slot, first.key, Loaded(c, first).value);
  }

  // ----- the slot caches that are not dropped yet -----

  ghost function Sizes<R>(live: map<R, Table>): (r: map<R, nat>) {
    map s | s in live :: Bytes(live[s])
  }

  ghost function TotalBytes<R>(live: map<R, Table>): (r: nat) {
    Sum(Sizes(live))
  }

  lemma TotalPut<R>(live: map<R, Table>, s: R, table: Table)
    ensures TotalBytes(live[s := table]) == TotalBytes(live) + Bytes(table) - if s in live then Bytes(live[s]) else 0
    ensures s in live ==> Bytes(live[s]) <= TotalBytes(live)
  {
    SumPut(Sizes(live), s, Bytes(table));
    assert Sizes(live[s := table]) == Sizes(live)[s := Bytes(table)];
    if s in live { SumWithout(Sizes(live), s); }
  }

  lemma TotalDrop<R>(live: map<R, Table>, s: R)
    requires s in live
    ensures TotalBytes(live) == Bytes(live[s]) + TotalBytes(live - {s})
  {
    SumWithout(Sizes(live), s);
    assert Sizes(live - {s}) == Sizes(live) - {s};
  }

  /** Each slot has a live cache of its own. */
  ghost predicate Separate<R>(cache: map<Slot, R>, live: map<R, Table>) {
    && (forall slot :: slot in cache ==> cache[slot] in live)
    && (forall a, b :: a in cache && b in cache && a != b ==> cache[a] != cache[b])
  }

  ghost function Find<R>(cache: map<Slot, R>, live: map<R, Table>, slot: Slot, k: Pubkey): (r: Option<Account>) {
    if slot in cache && cache[slot] in live && k in live[cache[slot]] then Some(live[cache[slot]][k]) else None
  }

  /** The slot caches together hold the contents. */
  ghost predicate Shows<R>(cache: map<Slot, R>, live: map<R, Table>, c: Contents) {
    forall slot, k :: Find(cache, live, slot, k) == Get(c, slot, k)
  }

  lemma ShowsStore<R>(cache: map<Slot, R>, live: map<R, Table>, c: Contents, slot: Slot, k: Pubkey, account: Account)
    requires Separate(cache, live) && Shows(cache, live, c) && slot in cache
    ensures var now := live[cache[slot] := Put(live[cache[slot]], k, account)];
            Separate(cache, now) && Shows(cache, now, After(c, Store(slot, k, account)))
  {
    var now, d := live[cache[slot] := Put(live[cache[slot]], k, account)], After(c, Store(slot, k, account));
    forall s, x ensures Find(cache, now, s, x) == Get(d, s, x) {
      assert Find(cache, live, s, x) == Get(c, s, x);
    }
  }

  lemma ShowsNewSlot<R>(cache: map<Slot, R>, live: map<R, Table>, c: Contents, slot: Slot, r: R)
    requires Separate(cache, live) && Shows(cache, live, c) && slot !in cache && r !in live
    ensures Separate(cache[slot := r], live[r := map[]]) && Shows(cache[slot := r], live[r := map[]], c)
  {
    forall s, x ensures Find(cache[slot := r], live[r := map[]], s, x) == Get(c, s, x) {
      assert Find(cache, live, s, x) == Get(c, s, x);
    }
  }

  lemma ShowsRemoval<R>(cache: map<Slot, R>, live: map<R, Table>, c: Contents, now: map<Slot, R>, op: Op)
    requires Separate(cache, live) && Shows(cache, live, c) && (op.RemoveSlot? || op.RemoveSlotsLe?)
    requires forall s :: s in now <==> s in cache && !(if op.RemoveSlot? then s == op.slot else s <= op.maxRoot)
    requires forall s :: s in now ==> now[s] == cache[s]
    ensures Separate(now, live) && Shows(now, live, After(c, op))
  {
    var d := After(c, op);
    forall s, x ensures Find(now, live, s, x) == Get(d, s, x) {
      assert Find(cache, live, s, x) == Get(c, s, x);
    }
  }

  lemma ShowsDrop<R>(cache: map<Slot, R>, live: map<R, Table>, c: Contents, r: R)
    requires Separate(cache, live) && Shows(cache, live, c) && forall slot :: slot in cache ==> cache[slot] != r
    ensures Separate(cache, live - {r}) && Shows(cache, live - {r}, c)
  {
    forall s, x ensures Find(cache, live - {r}, s, x) == Get(c, s, x) {
      assert Find(cache, live, s, x) == Get(c, s, x);
    }
  }

  // ----- one slot -----

  /** The byte count that all slots share. */
  class Counter {
    var value: nat

    constructor ()
      ensures value == 0
    {
      value := 0;
    }
  }

  class SlotCacheInner {
    var cache: Table
    var sameAccountWrites: nat
    var sameAccountWritesSize: nat
    var uniqueAccountWritesSize: nat
    var size: nat
    const totalSize: Counter

    constructor (totalSize: Counter)
      ensures cache == map[] && size == 0 && this.totalSize == totalSize
    {
      cache, size := map[], 0;
      sameAccountWrites, sameAccountWritesSize, uniqueAccountWritesSize := 0, 0, 0;
      this.totalSize := totalSize;
    }

    /** Both counts follow the length of the account that is put in or replaced. */
    method Insert(k: Pubkey, account: Account) returns (item: Account)
      requires size == Bytes(cache) && size <= totalSize.value
      modifies this, totalSize
      ensures item == account && cache == Put(old(cache), k, account) && size == Bytes(cache)
      ensures totalSize.value - size == old(totalSize.value) - old(size)
      ensures var again := k in old(cache);
              && sameAccountWrites == old(sameAccountWrites) + (if again then 1 else 0)
              && sameAccountWritesSize == old(sameAccountWritesSize) + (if again then |account.data| else 0)
              && uniqueAccountWritesSize == old(uniqueAccountWritesSize) + (if again then 0 else |account.data|)
    {
      BytesPut(cache, k, account);
      var dataLen := |account.data|;
      item := account;
      if k in cache {
        var oldLen := |cache[k].data|;
        cache := cache[k := account];
        sameAccountWrites := sameAccountWrites + 1;
        sameAccountWritesSize := sameAccountWritesSize + dataLen;
        var grow := if dataLen > oldLen then dataLen - oldLen else 0;
        if grow > 0 {
          size := size + grow;
          totalSize.value := totalSize.value + grow;
        } else {
          var shrink := if oldLen > dataLen then oldLen - dataLen else 0;
          if shrink > 0 {
            size := size - shrink;
            totalSize.value := totalSize.value - shrink;
          }
        }
      } else {
        cache := cache[k := account];
        size := size + dataLen;
        totalSize.value := totalSize.value + dataLen;
        uniqueAccountWritesSize := uniqueAccountWritesSize + dataLen;
      }
    }
  }

  // ----- all slots -----

  class AccountsCache {
    var cache: map<Slot, SlotCacheInner>
    const totalSize: Counter
    /** The slot caches that are in the table, or removed but still held, with what they hold. */
    ghost var live: map<SlotCacheInner, Table>
    ghost var contents: Contents

    /** Each live slot cache counts its own bytes, and the shared counter those of all. */
    ghost predicate Valid()
      reads this, totalSize, live.Keys
    {
      && (forall s :: s in live ==> s.cache == live[s] && s.size == Bytes(live[s]) && s.totalSize == totalSize)
      && totalSize.value == TotalBytes(live)
      && Separate(cache, live)
      && Shows(cache, live, contents)
    }

    constructor ()
      ensures Valid() && fresh(totalSize) && contents == map[] && live == map[] && cache == map[]
    {
      cache, live, contents := map[], map[], map[];
      totalSize := new Counter();
    }

    /** An empty cache for a slot that has none. */
    method AddSlot(slot: Slot)
      requires Valid() && slot !in cache
      modifies this
      ensures Valid() && contents == old(contents) && slot in cache
      ensures fresh(live.Keys - old(live.Keys)) && fresh(cache[slot])
    {
      var s := new SlotCacheInner(totalSize);
      TotalPut(live, s, map[]);
      ShowsNewSlot(cache, live, contents, slot, s);
      cache := cache[slot := s];
      live := live[s := map[]];
    }

    method StoreIn(slot: Slot, k: Pubkey, account: Account) returns (item: Account)
      requires Valid() && slot in cache
      modifies this`live, this`contents, totalSize, cache[slot]
      ensures Valid() && item == account && live.Keys == old(live.Keys)
      ensures contents == After(old(contents), Store(slot, k, account))
    {
      var s := cache[slot];
      ghost var table := Put(live[s], k, account);
      TotalPut(live, s, table);
      ShowsStore(cache, live, contents, slot, k, account);
      item := s.Insert(k, account);
      live := live[s := table];
      contents := After(contents, Store(slot, k, account));
    }

    method StoreAccount(slot: Slot, k: Pubkey, account: Account) returns (item: Account)
      requires Valid()
      modifies this, totalSize, live.Keys
      ensures Valid() && item == account && fresh(live.Keys - old(live.Keys))
      ensures contents == After(old(contents), Store(slot, k, account))
    {
      if slot !in cache { AddSlot(slot); }
      item := StoreIn(slot, k, account);
    }

    /** The cached account, or what the remote loader answers, which is cached then. */
    method LoadAccount(slot: Slot, k: Pubkey, remote: Option<Account>) returns (r: Option<Account>)
      requires Valid()
      modifies this, totalSize, live.Keys
      ensures Valid() && fresh(live.Keys - old(live.Keys))
      ensures r == Loaded(old(contents), Load(slot, k, remote))
      ensures contents == After(old(contents), Load(slot, k, remote))
    {
      assert Find(cache, live, slot, k) == Get(contents, slot, k);
      if slot in cache && k in cache[slot].cache { return Some(cache[slot].cache[k]); }
      if remote.None? { return None; }
      var item := StoreAccount(slot, k, remote.value);
      r := Some(item);
    }

    /** The slot cache leaves the table; its bytes count until it is dropped. */
    method TakeSlot(slot: Slot) returns (r: Option<SlotCacheInner>)
      requires Valid()
      modifies this
      ensures Valid() && live == old(live) && contents == After(old(contents), RemoveSlot(slot))
      ensures r == if slot in old(cache) then Some(old(cache)[slot]) else None
      ensures r.Some? ==> r.value in live && forall x :: x in cache ==> cache[x] != r.value
    {
      r := if slot in cache then Some(cache[slot]) else None;
      ShowsRemoval(cache, live, contents, cache - {slot}, RemoveSlot(slot));
      cache := cache - {slot};
      contents := After(contents, RemoveSlot(slot));
    }

    method TakeSlotsLe(maxRoot: Slot) returns (removed: map<Slot, SlotCacheInner>)
      requires Valid()
      modifies this
      ensures Valid() && live == old(live) && contents == After(old(contents), RemoveSlotsLe(maxRoot))
      ensures removed == map slot | slot in old(cache) && slot <= maxRoot :: old(cache)[slot]
      ensures forall slot, x :: slot in removed && x in cache ==> cache[x] != removed[slot]
    {
      removed := map slot | slot in cache && slot <= maxRoot :: cache[slot];
      var kept := map slot | slot in cache && slot > maxRoot :: cache[slot];
      ShowsRemoval(cache, live, contents, kept, RemoveSlotsLe(maxRoot));
      cache := kept;
      contents := After(contents, RemoveSlotsLe(maxRoot));
    }

    /** The last reference to a removed slot cache goes: the shared count loses its bytes. */
    method Drop(s: SlotCacheInner)
      requires Valid() && s in live && forall slot :: slot in cache ==> cache[slot] != s
      modifies this, totalSize
      ensures Valid() && live == old(live) - {s} && contents == old(contents)
      ensures totalSize.value == old(totalSize.value) - s.size
    {
      TotalDrop(live, s);
      ShowsDrop(cache, live, contents, s);
      totalSize.value := totalSize.value - s.size;
      live := live - {s};
    }
  }
}
