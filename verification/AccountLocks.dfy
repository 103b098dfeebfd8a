/**
 * The account locks that keep transactions of one batch, and of batches that
 * run at the same time, from touching the same accounts: many readers or one
 * writer per account.
 */
module AccountLocks {
  import opened Ascending
  import opened Common

  /** The accounts of a transaction. */
  datatype Keys = Keys(writable: seq<Pubkey>, readonly: seq<Pubkey>) {
    /** No account is named twice. */
    ghost predicate Distinct() {
      && (forall i, j :: 0 <= i < j < |writable| ==> writable[i] != writable[j])
      && (forall i, j :: 0 <= i < j < |readonly| ==> readonly[i] != readonly[j])
      && (forall k :: k in writable ==> k !in readonly)
    }
  }

  /** A transaction of a batch: its accounts, or why it was rejected before. */
  datatype Request = Request(keys: Keys) | Rejected(error: nat)

  datatype LockResult = Granted | AccountInUse | Failed(error: nat)

  function One(b: bool): (r: nat) { if b then 1 else 0 }

  // ----- the holders of a lock -----

  ghost function Writers(holders: seq<Keys>, k: Pubkey): (r: nat) {
    if holders == [] then 0
    else Writers(holders[..|holders| - 1], k) + One(k in holders[|holders| - 1].writable)
  }

  ghost function Readers(holders: seq<Keys>, k: Pubkey): (r: nat) {
    if holders == [] then 0
    else Readers(holders[..|holders| - 1], k) + One(k in holders[|holders| - 1].readonly)
  }

  lemma {:induction false} HoldersOf(holders: seq<Keys>, k: Pubkey)
    ensures Writers(holders, k) > 0 <==> exists i :: 0 <= i < |holders| && k in holders[i].writable
    ensures Readers(holders, k) > 0 <==> exists i :: 0 <= i < |holders| && k in holders[i].readonly
    decreases |holders|
  {
    if holders != [] {
      var n := |holders| - 1;
      HoldersOf(holders[..n], k);
      assert forall i :: 0 <= i < n ==> holders[..n][i] == holders[i];
      assert forall i :: 0 <= i < |holders| ==> i == n || holders[i] == holders[..n][i];
    }
  }

  lemma Granting(holders: seq<Keys>, keys: Keys, k: Pubkey)
    ensures Writers(holders + [keys], k) == Writers(holders, k) + One(k in keys.writable)
    ensures Readers(holders + [keys], k) == Readers(holders, k) + One(k in keys.readonly)
  {
    assert (holders + [keys])[..|holders|] == holders;
  }

  /** The holders without one of them. */
  ghost function Without(holders: seq<Keys>, keys: Keys): (r: seq<Keys>)
    requires keys in holders
    decreases |holders|
  {
    var n := |holders| - 1;
    if holders[n] == keys then holders[..n] else Without(holders[..n], keys) + [holders[n]]
  }

  lemma {:induction false} Releasing(holders: seq<Keys>, keys: Keys, k: Pubkey)
    requires keys in holders
    ensures Writers(holders, k) == Writers(Without(holders, keys), k) + One(k in keys.writable)
    ensures Readers(holders, k) == Readers(Without(holders, keys), k) + One(k in keys.readonly)
    decreases |holders|
  {
    var n := |holders| - 1;
    if holders[n] != keys {
      Releasing(holders[..n], keys, k);
      Granting(Without(holders[..n], keys), holders[n], k);
    }
  }

  lemma {:induction false} WithoutIsOneLess(holders: seq<Keys>, keys: Keys)
    requires keys in holders
    ensures multiset(holders) == multiset(Without(holders, keys)) + multiset{keys}
    decreases |holders|
  {
    var n := |holders| - 1;
    assert holders == holders[..n] + [holders[n]];
    if holders[n] != keys { WithoutIsOneLess(holders[..n], keys); }
  }

  /** The transaction writes what a holder uses, or reads what a holder writes. */
  ghost predicate Conflicts(holders: seq<Keys>, keys: Keys) {
    exists i :: 0 <= i < |holders| && Clash(holders[i], keys)
  }

  ghost predicate Clash(holder: Keys, keys: Keys) {
    || (exists k :: k in keys.writable && (k in holder.writable || k in holder.readonly))
    || (exists k :: k in keys.readonly && k in holder.writable)
  }

  ghost predicate AllDistinct(holders: seq<Keys>) {
    forall i :: 0 <= i < |holders| ==> holders[i].Distinct()
  }

  lemma {:induction false} WithoutDistinct(holders: seq<Keys>, keys: Keys)
    requires keys in holders && AllDistinct(holders)
    ensures AllDistinct(Without(holders, keys))
    decreases |holders|
  {
    var n := |holders| - 1;
    if holders[n] != keys { WithoutDistinct(holders[..n], keys); }
  }

  // ----- batches -----

  ghost function Answer(holders: seq<Keys>, tx: Request): (r: LockResult) {
    match tx
    case Rejected(error) => Failed(error)
    case Request(keys) => if Conflicts(holders, keys) then AccountInUse else Granted
  }

  /** The holders after a batch: each transaction meets those granted before it. */
  ghost function HoldersAfter(holders: seq<Keys>, batch: seq<Request>): (r: seq<Keys>)
    decreases |batch|
  {
    if batch == [] then holders
    else
      var before, tx := HoldersAfter(holders, batch[..|batch| - 1]), batch[|batch| - 1];
      if Answer(before, tx) == Granted then before + [tx.keys] else before
  }

  ghost function Answers(holders: seq<Keys>, batch: seq<Request>): (r: seq<LockResult>)
    decreases |batch|
  {
    if batch == [] then []
    else
      var n := |batch| - 1;
      Answers(holders, batch[..n]) + [Answer(HoldersAfter(holders, batch[..n]), batch[n])]
  }

  /** The holders without all of the given ones, which must all be holders. */
  ghost predicate CanRelease(holders: seq<Keys>, txs: seq<Keys>)
    decreases |txs|
  {
    txs == [] || (txs[0] in holders && CanRelease(Without(holders, txs[0]), txs[1..]))
  }

  ghost function WithoutAll(holders: seq<Keys>, txs: seq<Keys>): (r: seq<Keys>)
    requires CanRelease(holders, txs)
    decreases |txs|
  {
    if txs == [] then holders else WithoutAll(Without(holders, txs[0]), txs[1..])
  }

  lemma OneMore(x: Keys, a: multiset<Keys>, b: multiset<Keys>)
    ensures multiset{x} + a <= b + multiset{x} <==> a <= b
    ensures (b + multiset{x}) - (multiset{x} + a) == b - a
  {
    if multiset{x} + a <= b + multiset{x} {
      forall y ensures a[y] <= b[y] {
        assert (multiset{x} + a)[y] <= (b + multiset{x})[y];
      }
    }
  }

  /** Releasable are exactly transactions that each hold their locks, counted with repetitions. */
  lemma {:induction false} ReleasableExactly(holders: seq<Keys>, txs: seq<Keys>)
    ensures CanRelease(holders, txs) <==> multiset(txs) <= multiset(holders)
    ensures CanRelease(holders, txs) ==> multiset(WithoutAll(holders, txs)) == multiset(holders) - multiset(txs)
    decreases |txs|
  {
    if txs != [] {
      assert txs == [txs[0]] + txs[1..];
      assert multiset(txs) == multiset{txs[0]} + multiset(txs[1..]);
      if txs[0] in holders {
        WithoutIsOneLess(holders, txs[0]);
        ReleasableExactly(Without(holders, txs[0]), txs[1..]);
        OneMore(txs[0], multiset(txs[1..]), multiset(Without(holders, txs[0])));
      } else {
        assert txs[0] in multiset(txs) && txs[0] !in multiset(holders);
      }
    }
  }

  /** When all holders are released, in any order, nobody is left. */
  lemma ReleasingEverybody(holders: seq<Keys>, txs: seq<Keys>)
    requires multiset(txs) == multiset(holders)
    ensures CanRelease(holders, txs) && WithoutAll(holders, txs) == []
  {
    ReleasableExactly(holders, txs);
    var left := WithoutAll(holders, txs);
    assert |left| == |multiset(left)| == 0;
  }

  // ----- the lock table -----

  function CountOf(m: map<Pubkey, nat>, k: Pubkey): (r: nat) {
    if k in m then m[k] else 0
  }

  ghost predicate Matches(holders: seq<Keys>, writeLocks: set<Pubkey>, readonlyLocks: map<Pubkey, nat>) {
    && AllDistinct(holders)
    && (forall k: Pubkey :: Writers(holders, k) == One(k in writeLocks))
    && (forall k: Pubkey :: Readers(holders, k) == CountOf(readonlyLocks, k))
    && (forall k :: k in readonlyLocks ==> readonlyLocks[k] > 0)
    && (forall k :: k in writeLocks ==> k !in readonlyLocks)
  }

  lemma ConflictSeen(holders: seq<Keys>, writeLocks: set<Pubkey>, readonlyLocks: map<Pubkey, nat>, keys: Keys)
    requires Matches(holders, writeLocks, readonlyLocks)
    ensures Conflicts(holders, keys) <==>
              || (exists k :: k in keys.writable && (k in writeLocks || k in readonlyLocks))
              || (exists k :: k in keys.readonly && k in writeLocks)
  {
    forall k: Pubkey
      ensures k in writeLocks <==> exists i :: 0 <= i < |holders| && k in holders[i].writable
      ensures k in readonlyLocks <==> exists i :: 0 <= i < |holders| && k in holders[i].readonly
    {
      HoldersOf(holders, k);
    }
    if Conflicts(holders, keys) {
      var i :| 0 <= i < |holders| && Clash(holders[i], keys);
      assert forall k: Pubkey :: k in holders[i].writable ==> k in writeLocks;
      assert forall k: Pubkey :: k in holders[i].readonly ==> k in readonlyLocks;
    }
  }

  lemma {:induction false} TwoWriters(holders: seq<Keys>, k: Pubkey, i: nat, j: nat)
    requires i < j < |holders| && k in holders[i].writable && k in holders[j].writable
    ensures Writers(holders, k) >= 2
    decreases |holders|
  {
    var n := |holders| - 1;
    assert holders[..n][i] == holders[i];
    if j == n {
      HoldersOf(holders[..n], k);
    } else {
      assert holders[..n][j] == holders[j];
      TwoWriters(holders[..n], k, i, j);
    }
  }

  /** Two holders never write the same account, nor does one write what the other reads. */
  lemma HoldersDoNotClash(holders: seq<Keys>, writeLocks: set<Pubkey>, readonlyLocks: map<Pubkey, nat>, i: nat, j: nat)
    requires Matches(holders, writeLocks, readonlyLocks) && i < j < |holders|
    ensures !Clash(holders[i], holders[j]) && !Clash(holders[j], holders[i])
    ensures forall k :: k in holders[i].writable ==> k !in holders[j].writable && k !in holders[j].readonly
    ensures forall k :: k in holders[j].writable ==> k !in holders[i].writable && k !in holders[i].readonly
  {
    forall k: Pubkey
      ensures !(k in holders[i].writable && k in holders[j].writable)
      ensures !(k in holders[i].writable && k in holders[j].readonly)
      ensures !(k in holders[i].readonly && k in holders[j].writable)
    {
      HoldersOf(holders, k);
      assert Writers(holders, k) == One(k in writeLocks) && Readers(holders, k) == CountOf(readonlyLocks, k);
      if k in holders[i].writable && k in holders[j].writable { TwoWriters(holders, k, i, j); }
    }
  }

  /** When nobody holds a lock the table is empty. */
  lemma NobodyMeansEmpty(writeLocks: set<Pubkey>, readonlyLocks: map<Pubkey, nat>)
    requires Matches([], writeLocks, readonlyLocks)
    ensures writeLocks == {} && readonlyLocks == map[]
  {
    forall k: Pubkey ensures k !in writeLocks && k !in readonlyLocks {
      assert Writers([], k) == 0 && Readers([], k) == 0;
    }
  }

  lemma GrantMatches(holders: seq<Keys>, writeLocks: set<Pubkey>, readonlyLocks: map<Pubkey, nat>, keys: Keys,
                     newWrite: set<Pubkey>, newReadonly: map<Pubkey, nat>)
    requires Matches(holders, writeLocks, readonlyLocks) && keys.Distinct() && !Conflicts(holders, keys)
    requires forall k: Pubkey :: k in newWrite <==> k in writeLocks || k in keys.writable
    requires ReadersAdded(readonlyLocks, keys.readonly, |keys.readonly|, newReadonly)
    ensures Matches(holders + [keys], newWrite, newReadonly)
  {
    ConflictSeen(holders, writeLocks, readonlyLocks, keys);
    forall k: Pubkey
      ensures Writers(holders + [keys], k) == One(k in newWrite)
      ensures Readers(holders + [keys], k) == CountOf(newReadonly, k)
    {
      Granting(holders, keys, k);
      assert keys.readonly[..|keys.readonly|] == keys.readonly;
      assert AddedAt(readonlyLocks, keys.readonly, |keys.readonly|, newReadonly, k);
    }
    forall k | k in newWrite ensures k !in newReadonly {
      assert keys.readonly[..|keys.readonly|] == keys.readonly;
      assert AddedAt(readonlyLocks, keys.readonly, |keys.readonly|, newReadonly, k);
    }
  }

  /** The first `n` keys have one reader more. */
  ghost predicate ReadersAdded(before: map<Pubkey, nat>, keys: seq<Pubkey>, n: nat, now: map<Pubkey, nat>)
    requires n <= |keys|
  {
    && (forall k :: k in now ==> now[k] > 0)
    && forall k: Pubkey :: AddedAt(before, keys, n, now, k)
  }

  ghost predicate AddedAt(before: map<Pubkey, nat>, keys: seq<Pubkey>, n: nat, now: map<Pubkey, nat>, k: Pubkey)
    requires n <= |keys|
  {
    CountOf(now, k) == CountOf(before, k) + One(k in keys[..n])
  }

  /** The first `n` keys have one reader less. */
  ghost predicate ReadersDropped(before: map<Pubkey, nat>, keys: seq<Pubkey>, n: nat, now: map<Pubkey, nat>)
    requires n <= |keys|
  {
    && (forall k :: k in now ==> now[k] > 0)
    && forall k: Pubkey :: AddedAt(now, keys, n, before, k)
  }

  lemma InTake(keys: seq<Pubkey>, n: nat, k: Pubkey)
    requires n < |keys| && forall i, j :: 0 <= i < j < |keys| ==> keys[i] != keys[j]
    ensures k in keys[..n + 1] <==> k in keys[..n] || k == keys[n]
    ensures keys[n] !in keys[..n]
  {
    assert keys[..n + 1] == keys[..n] + [keys[n]];
  }

  lemma ReleaseMatches(holders: seq<Keys>, writeLocks: set<Pubkey>, readonlyLocks: map<Pubkey, nat>, keys: Keys,
                       newWrite: set<Pubkey>, newReadonly: map<Pubkey, nat>)
    requires Matches(holders, writeLocks, readonlyLocks) && keys in holders
    requires forall k: Pubkey :: k in newWrite <==> k in writeLocks && k !in keys.writable
    requires ReadersDropped(readonlyLocks, keys.readonly, |keys.readonly|, newReadonly)
    ensures Matches(Without(holders, keys), newWrite, newReadonly)
  {
    WithoutDistinct(holders, keys);
    assert keys.readonly[..|keys.readonly|] == keys.readonly;
    forall k: Pubkey
      ensures Writers(Without(holders, keys), k) == One(k in newWrite)
      ensures Readers(Without(holders, keys), k) == CountOf(newReadonly, k)
    {
      Releasing(holders, keys, k);
      assert AddedAt(newReadonly, keys.readonly, |keys.readonly|, readonlyLocks, k);
    }
    forall k | k in newWrite ensures k !in newReadonly {
      assert AddedAt(newReadonly, keys.readonly, |keys.readonly|, readonlyLocks, k);
    }
  }

  // ----- what is released -----

  /** The granted ones of the first `n` transactions. */
  function GrantedBelow(txs: seq<Keys>, results: seq<LockResult>, n: nat): (r: seq<Keys>)
    requires n <= |txs| && n <= |results|
  {
    if n == 0 then []
    else GrantedBelow(txs, results, n - 1) + if results[n - 1] == Granted then [txs[n - 1]] else []
  }

  /** The granted ones of the transactions that have a result. */
  function GrantedOf(txs: seq<Keys>, results: seq<LockResult>): (r: seq<Keys>) {
    GrantedBelow(txs, results, Min(|txs|, |results|))
  }

  lemma {:induction false} GrantedPositions(txs: seq<Keys>, results: seq<LockResult>, n: nat, p: nat -> bool)
    requires n <= |txs| && n <= |results| && forall i :: 0 <= i < n ==> (p(i) <==> results[i] == Granted)
    ensures |GrantedBelow(txs, results, n)| == |Positions(n, p)|
    ensures forall j :: 0 <= j < |Positions(n, p)| ==>
              Positions(n, p)[j] < n && GrantedBelow(txs, results, n)[j] == txs[Positions(n, p)[j]]
  {
    if n > 0 { GrantedPositions(txs, results, n - 1, p); }
  }

  /** These are, in order and each as often as it occurs, the transactions whose result is a grant. */
  lemma GrantedAre(txs: seq<Keys>, results: seq<LockResult>) returns (pos: seq<nat>)
    ensures IsAscending(pos)
    ensures forall i: nat :: i in pos <==> i < |txs| && i < |results| && results[i] == Granted
    ensures |GrantedOf(txs, results)| == |pos|
    ensures forall j :: 0 <= j < |pos| ==> pos[j] < |txs| && GrantedOf(txs, results)[j] == txs[pos[j]]
  {
    var n, p := Min(|txs|, |results|), (i: nat) => i < |results| && results[i] == Granted;
    pos := Positions(n, p);
    PositionsAre(n, p);
    GrantedPositions(txs, results, n, p);
  }

  /** The accounts of the transactions of a batch; those rejected before are not looked at. */
  ghost predicate KeysOfBatch(batch: seq<Request>, txs: seq<Keys>) {
    |txs| == |batch| && forall i :: 0 <= i < |batch| && batch[i].Request? ==> txs[i] == batch[i].keys
  }

  lemma {:induction false} AnswerAt(holders: seq<Keys>, batch: seq<Request>, i: nat)
    requires i < |batch|
    ensures |Answers(holders, batch)| == |batch|
    ensures Answers(holders, batch)[i] == Answer(HoldersAfter(holders, batch[..i]), batch[i])
    decreases |batch|
  {
    var n := |batch| - 1;
    if n > 0 {
      var j := if i < n then i else 0;
      AnswerAt(holders, batch[..n], j);
      assert batch[..n][..j] == batch[..j];
    }
  }

  /** A batch adds its granted transactions to the holders, one after the other. */
  lemma {:induction false} BatchAddsGranted(holders: seq<Keys>, batch: seq<Request>, txs: seq<Keys>,
                                            results: seq<LockResult>, n: nat)
    requires KeysOfBatch(batch, txs) && results == Answers(holders, batch) && n <= |batch| == |results|
    ensures HoldersAfter(holders, batch[..n]) == holders + GrantedBelow(txs, results, n)
  {
    if n > 0 {
      BatchAddsGranted(holders, batch, txs, results, n - 1);
      AnswerAt(holders, batch, n - 1);
      assert batch[..n][..n - 1] == batch[..n - 1];
    }
  }

  lemma AnswersLength(holders: seq<Keys>, batch: seq<Request>)
    ensures |Answers(holders, batch)| == |batch|
  {
    if batch != [] { AnswerAt(holders, batch, 0); }
  }

  /** Each transaction is refused with its own error, or granted exactly if it clashes with none of the holders of
      before and none of those granted before it. */
  lemma AnswersExactly(holders: seq<Keys>, batch: seq<Request>, txs: seq<Keys>, i: nat)
    requires KeysOfBatch(batch, txs) && i < |batch| && i < |Answers(holders, batch)|
    ensures batch[i].Rejected? ==> Answers(holders, batch)[i] == Failed(batch[i].error)
    ensures batch[i].Request? ==>
              var met := holders + GrantedBelow(txs, Answers(holders, batch), i);
              var clashes := exists j :: 0 <= j < |met| && Clash(met[j], batch[i].keys);
              Answers(holders, batch)[i] == if clashes then AccountInUse else Granted
  {
    AnswerAt(holders, batch, i);
    BatchAddsGranted(holders, batch, txs, Answers(holders, batch), i);
  }

  /** A batch that is locked and then unlocked with the results leaves the holders of before. */
  lemma LockThenUnlock(holders: seq<Keys>, batch: seq<Request>, txs: seq<Keys>)
    requires KeysOfBatch(batch, txs)
    ensures var after, granted := HoldersAfter(holders, batch), GrantedOf(txs, Answers(holders, batch));
            CanRelease(after, granted) && multiset(WithoutAll(after, granted)) == multiset(holders)
  {
    var after, granted := HoldersAfter(holders, batch), GrantedOf(txs, Answers(holders, batch));
    AnswersLength(holders, batch);
    BatchAddsGranted(holders, batch, txs, Answers(holders, batch), |batch|);
    assert batch[..|batch|] == batch && after == holders + granted;
    ReleasableExactly(after, granted);
    assert multiset(holders + granted) == multiset(holders) + multiset(granted);
  }

  /** On an empty table both tables are empty again. */
  lemma LockThenUnlockEmpties(batch: seq<Request>, txs: seq<Keys>, writeLocks: set<Pubkey>,
                              readonlyLocks: map<Pubkey, nat>)
    requires KeysOfBatch(batch, txs)
    requires var after, granted := HoldersAfter([], batch), GrantedOf(txs, Answers([], batch));
             CanRelease(after, granted) ==> Matches(WithoutAll(after, granted), writeLocks, readonlyLocks)
    ensures writeLocks == {} && readonlyLocks == map[]
  {
    LockThenUnlock([], batch, txs);
    var left := WithoutAll(HoldersAfter([], batch), GrantedOf(txs, Answers([], batch)));
    assert |left| == |multiset(left)| == 0;
    NobodyMeansEmpty(writeLocks, readonlyLocks);
  }

  class AccountLocks {
    var writeLocks: set<Pubkey>
    var readonlyLocks: map<Pubkey, nat>
    ghost var holders: seq<Keys>

    ghost predicate Valid()
      reads this
    {
      Matches(holders, writeLocks, readonlyLocks)
    }

    constructor ()
      ensures Valid() && holders == []
    {
      writeLocks, readonlyLocks, holders := {}, map[], [];
    }

    /** One more reader; false if the key has none yet. */
    method LockReadonly(k: Pubkey) returns (ok: bool)
      modifies this`readonlyLocks
      ensures ok <==> k in old(readonlyLocks)
      ensures readonlyLocks == if ok then old(readonlyLocks)[k := old(readonlyLocks)[k] + 1] else old(readonlyLocks)
    {
      ok := k in readonlyLocks;
      if ok { readonlyLocks := readonlyLocks[k := readonlyLocks[k] + 1]; }
    }

    /** One reader less; the last takes the entry along. */
    method UnlockReadonly(k: Pubkey)
      requires k in readonlyLocks ==> readonlyLocks[k] > 0
      modifies this`readonlyLocks
      ensures forall x: Pubkey :: CountOf(readonlyLocks, x) ==
                CountOf(old(readonlyLocks), x) - One(x == k && k in old(readonlyLocks))
      ensures forall x :: x in readonlyLocks ==>
                x in old(readonlyLocks) && (x != k ==> readonlyLocks[x] == old(readonlyLocks)[x])
      ensures k in readonlyLocks ==> readonlyLocks[k] > 0
    {
      if k in readonlyLocks {
        readonlyLocks := readonlyLocks[k := readonlyLocks[k] - 1];
        if readonlyLocks[k] == 0 { readonlyLocks := readonlyLocks - {k}; }
      }
    }

    /** Whether a lock that the transaction needs is taken. */
    method IsInUse(keys: Keys) returns (inUse: bool)
      requires Valid()
      ensures inUse <==> Conflicts(holders, keys)
    {
      ConflictSeen(holders, writeLocks, readonlyLocks, keys);
      for i := 0 to |keys.writable|
        invariant forall j :: 0 <= j < i ==> keys.writable[j] !in writeLocks && keys.writable[j] !in readonlyLocks
      {
        var k := keys.writable[i];
        if k in writeLocks || (k in readonlyLocks && readonlyLocks[k] > 0) { return true; }
      }
      for i := 0 to |keys.readonly|
        invariant forall j :: 0 <= j < i ==> keys.readonly[j] !in writeLocks
      {
        if keys.readonly[i] in writeLocks { return true; }
      }
      return false;
    }

    method AddReaders(keys: seq<Pubkey>)
      requires forall i, j :: 0 <= i < j < |keys| ==> keys[i] != keys[j]
      requires forall k :: k in readonlyLocks ==> readonlyLocks[k] > 0
      modifies this`readonlyLocks
      ensures ReadersAdded(old(readonlyLocks), keys, |keys|, readonlyLocks)
    {
      ghost var before := readonlyLocks;
      for i := 0 to |keys|
        invariant ReadersAdded(before, keys, i, readonlyLocks)
      {
        ghost var m := readonlyLocks;
        var ok := LockReadonly(keys[i]);
        if !ok {
          assert keys[i] !in readonlyLocks;
          readonlyLocks := readonlyLocks[keys[i] := 1];
        }
        ghost var n := i + 1;
        forall k: Pubkey ensures AddedAt(before, keys, n, readonlyLocks, k) {
          assert AddedAt(before, keys, i, m, k);
          InTake(keys, i, k);
        }
      }
    }

    method DropReaders(keys: seq<Pubkey>)
      requires forall i, j :: 0 <= i < j < |keys| ==> keys[i] != keys[j]
      requires forall k :: k in readonlyLocks ==> readonlyLocks[k] > 0
      requires forall i :: 0 <= i < |keys| ==> keys[i] in readonlyLocks
      modifies this`readonlyLocks
      ensures ReadersDropped(old(readonlyLocks), keys, |keys|, readonlyLocks)
    {
      ghost var before := readonlyLocks;
      for i := 0 to |keys|
        invariant ReadersDropped(before, keys, i, readonlyLocks)
      {
        ghost var m := readonlyLocks;
        InTake(keys, i, keys[i]);
        assert AddedAt(m, keys, i, before, keys[i]);
        UnlockReadonly(keys[i]);
        ghost var n := i + 1;
        forall k: Pubkey ensures AddedAt(readonlyLocks, keys, n, before, k) {
          assert AddedAt(m, keys, i, before, k);
          InTake(keys, i, k);
        }
      }
    }

    /** Grants all the locks of a transaction, or none. */
    method LockAccount(keys: Keys) returns (r: LockResult)
      requires Valid() && keys.Distinct()
      modifies this
      ensures Valid()
      ensures r == if Conflicts(old(holders), keys) then AccountInUse else Granted
      ensures holders == if r == Granted then old(holders) + [keys] else old(holders)
      ensures r != Granted ==> writeLocks == old(writeLocks) && readonlyLocks == old(readonlyLocks)
    {
      var inUse := IsInUse(keys);
      if inUse { return AccountInUse; }
      ghost var was, wasReadonly := writeLocks, readonlyLocks;
      for i := 0 to |keys.writable|
        invariant readonlyLocks == wasReadonly && holders == old(holders)
        invariant forall k: Pubkey :: k in writeLocks <==> k in was || k in keys.writable[..i]
      {
        writeLocks := writeLocks + {keys.writable[i]};
        assert keys.writable[..i + 1] == keys.writable[..i] + [keys.writable[i]];
      }
      assert keys.writable[..|keys.writable|] == keys.writable;
      AddReaders(keys.readonly);
      GrantMatches(holders, was, wasReadonly, keys, writeLocks, readonlyLocks);
      holders := holders + [keys];
      return Granted;
    }

    /** Releases the locks of a holder. */
    method UnlockAccount(keys: Keys)
      requires Valid() && keys in holders
      modifies this
      ensures Valid() && holders == Without(old(holders), keys)
    {
      ghost var was, wasReadonly := writeLocks, readonlyLocks;
      for i := 0 to |keys.writable|
        invariant readonlyLocks == wasReadonly && holders == old(holders)
        invariant forall k: Pubkey :: k in writeLocks <==> k in was && k !in keys.writable[..i]
      {
        writeLocks := writeLocks - {keys.writable[i]};
        assert keys.writable[..i + 1] == keys.writable[..i] + [keys.writable[i]];
      }
      assert keys.writable[..|keys.writable|] == keys.writable;
      forall i | 0 <= i < |keys.readonly| ensures keys.readonly[i] in readonlyLocks {
        Releasing(holders, keys, keys.readonly[i]);
      }
      DropReaders(keys.readonly);
      ReleaseMatches(holders, was, wasReadonly, keys, writeLocks, readonlyLocks);
      holders := Without(holders, keys);
    }

    /** Answers a batch in order; a transaction meets the holders and those granted before it. */
    method LockAccountsInner(batch: seq<Request>) returns (results: seq<LockResult>)
      requires Valid() && forall i :: 0 <= i < |batch| && batch[i].Request? ==> batch[i].keys.Distinct()
      modifies this
      ensures Valid() && holders == HoldersAfter(old(holders), batch) && results == Answers(old(holders), batch)
    {
      results := [];
      for i := 0 to |batch|
        invariant Valid() && holders == HoldersAfter(old(holders), batch[..i])
        invariant results == Answers(old(holders), batch[..i])
      {
        assert batch[..i + 1][..i] == batch[..i];
        var r;
        match batch[i] {
          case Rejected(error) => r := Failed(error);
          case Request(keys) => r := LockAccount(keys);
        }
        results := results + [r];
      }
      assert batch[..|batch|] == batch;
    }

    /** Releases the transactions of a batch that were granted. */
    method UnlockAccounts(txs: seq<Keys>, results: seq<LockResult>)
      requires Valid() && CanRelease(holders, GrantedOf(txs, results))
      modifies this
      ensures Valid() && holders == WithoutAll(old(holders), GrantedOf(txs, results))
    {
      var keys := GrantedOf(txs, results);
      for i := 0 to |keys|
        invariant Valid() && CanRelease(holders, keys[i..])
        invariant WithoutAll(holders, keys[i..]) == WithoutAll(old(holders), keys)
      {
        assert keys[i..][1..] == keys[i + 1..];
        UnlockAccount(keys[i]);
      }
    }
  }
}
