/**
 * The queue of recent blockhashes. Old hashes are dropped only when the queue
 * is full, yet whether a hash is recent enough never depends on that.
 */
module BlockhashQueue {
  import opened Common

  type Hash = nat

  /** All hashes so far by index; index 0 is the genesis hash, if one was set. */
  type Log = log: seq<Option<Hash>> | |log| > 0 witness [None]

  /** The index of the latest registration of a hash. */
  ghost function Latest(log: seq<Option<Hash>>, h: Hash): (r: Option<nat>)
    ensures r.Some? ==> r.value < |log| && log[r.value] == Some(h)
  {
    if log == [] then None
    else if log[|log| - 1] == Some(h) then Some(|log| - 1)
    else Latest(log[..|log| - 1], h)
  }

  lemma {:induction false} LatestIsLast(log: seq<Option<Hash>>, h: Hash, i: nat)
    requires i < |log| && log[i] == Some(h)
    ensures Latest(log, h).Some? && i <= Latest(log, h).value
  {
    var n := |log| - 1;
    if log[n] != Some(h) {
      assert log[..n][i] == log[i];
      LatestIsLast(log[..n], h, i);
    }
  }

  /** The latest registration is at most `age` registrations old. */
  ghost predicate IsRecent(log: Log, h: Hash, age: nat) {
    Latest(log, h).Some? && |log| - 1 - Latest(log, h).value <= age
  }

  /** No hash was registered twice. */
  ghost predicate NoRepeats(log: seq<Option<Hash>>) {
    && (forall i :: 0 < i < |log| ==> log[i].Some?)
    && forall i, j :: 0 <= i < j < |log| ==> log[i] != log[j]
  }

  /** The hashes registered from an index on. */
  ghost function From(log: seq<Option<Hash>>, lo: nat): (r: set<Hash>)
    requires lo <= |log|
    decreases |log| - lo
  {
    if lo == |log| then {}
    else From(log, lo + 1) + if log[lo].Some? then {log[lo].value} else {}
  }

  lemma {:induction false} InFrom(log: seq<Option<Hash>>, lo: nat, h: Hash)
    requires lo <= |log|
    ensures h in From(log, lo) <==> exists i :: lo <= i < |log| && log[i] == Some(h)
    decreases |log| - lo
  {
    if lo < |log| { InFrom(log, lo + 1, h); }
  }

  lemma {:induction false} FromSize(log: seq<Option<Hash>>, lo: nat)
    requires lo <= |log|
    ensures |From(log, lo)| <= |log| - lo
    ensures NoRepeats(log) ==> |From(log, lo)| >= |log| - lo - if lo == 0 && |log| > 0 && log[0].None? then 1 else 0
    decreases |log| - lo
  {
    if lo < |log| {
      FromSize(log, lo + 1);
      if NoRepeats(log) && log[lo].Some? { InFrom(log, lo + 1, log[lo].value); }
    }
  }

  lemma RecentIsFrom(log: Log, age: nat, h: Hash)
    ensures IsRecent(log, h, age) <==> h in From(log, if |log| > age then |log| - 1 - age else 0)
  {
    var lo := if |log| > age then |log| - 1 - age else 0;
    InFrom(log, lo, h);
    if h in From(log, lo) {
      var i :| lo <= i < |log| && log[i] == Some(h);
      LatestIsLast(log, h, i);
    }
  }

  /** What the table must be, given the log. */
  ghost predicate Matches(log: Log, ages: map<Hash, nat>, maxAge: nat) {
    && (forall h :: h in ages ==> Latest(log, h) == Some(ages[h]))
    && (forall h: Hash :: IsRecent(log, h, maxAge) ==> h in ages)
    && |ages| <= maxAge + 1
    && (NoRepeats(log) ==> forall h :: h in ages ==> IsRecent(log, h, maxAge))
  }

  lemma AfterAppend(log: Log, h: Hash, x: Hash)
    ensures Latest(log + [Some(h)], x) == if x == h then Some(|log|) else Latest(log, x)
  {
    assert (log + [Some(h)])[..|log|] == log;
  }

  /** The entries that are still young enough when index `last` is registered. */
  function Retained(ages: map<Hash, nat>, last: nat, maxAge: nat): (r: map<Hash, nat>) {
    map h | h in ages && last - ages[h] <= maxAge :: ages[h]
  }

  lemma RetainedSize(log: Log, ages: map<Hash, nat>, maxAge: nat)
    requires Matches(log, ages, maxAge)
    ensures |Retained(ages, |log|, maxAge)| <= maxAge
  {
    var lo := if |log| > maxAge then |log| - maxAge else 0;
    var kept := Retained(ages, |log|, maxAge);
    forall h | h in kept.Keys ensures h in From(log, lo) { InFrom(log, lo, h); }
    SubsetSize(kept.Keys, From(log, lo));
    FromSize(log, lo);
  }

  /** If nothing is dropped although no hash repeats, nothing is old. */
  lemma ShortLog(log: Log, ages: map<Hash, nat>, maxAge: nat)
    requires Matches(log, ages, maxAge) && NoRepeats(log) && |ages| < maxAge
    ensures |log| <= maxAge
  {
    if |log| > maxAge {
      var lo := |log| - 1 - maxAge;
      forall h | h in From(log, lo) ensures h in ages.Keys { RecentIsFrom(log, maxAge, h); }
      SubsetSize(From(log, lo), ages.Keys);
      FromSize(log, lo);
      assert false;
    }
  }

  /** The table after the registration of index `last`. */
  function Registered(ages: map<Hash, nat>, last: nat, maxAge: nat, h: Hash): (r: map<Hash, nat>) {
    (if |ages| >= maxAge then Retained(ages, last, maxAge) else ages)[h := last]
  }

  lemma RegisteredSize(log: Log, ages: map<Hash, nat>, maxAge: nat, h: Hash)
    requires Matches(log, ages, maxAge)
    ensures |Registered(ages, |log|, maxAge, h)| <= maxAge + 1
  {
    var kept := if |ages| >= maxAge then Retained(ages, |log|, maxAge) else ages;
    if |ages| >= maxAge { RetainedSize(log, ages, maxAge); }
    assert kept[h := |log|].Keys == kept.Keys + {h};
  }

  lemma RegisteredRecent(log: Log, ages: map<Hash, nat>, maxAge: nat, h: Hash, x: Hash)
    requires Matches(log, ages, maxAge)
    ensures var longer: Log, now := log + [Some(h)], Registered(ages, |log|, maxAge, h);
            && (x in now ==> Latest(longer, x) == Some(now[x]))
            && (IsRecent(longer, x, maxAge) ==> x in now)
  {
    AfterAppend(log, h, x);
    assert x != h && IsRecent(log + [Some(h)], x, maxAge) ==> IsRecent(log, x, maxAge);
  }

  lemma PrefixNoRepeats(log: Log, h: Hash)
    requires NoRepeats(log + [Some(h)])
    ensures NoRepeats(log)
  {
    var longer := log + [Some(h)];
    assert forall i :: 0 <= i < |log| ==> longer[i] == log[i];
  }

  lemma RegisteredExact(log: Log, ages: map<Hash, nat>, maxAge: nat, h: Hash, x: Hash)
    requires Matches(log, ages, maxAge) && NoRepeats(log + [Some(h)])
    ensures x in Registered(ages, |log|, maxAge, h) ==> IsRecent(log + [Some(h)], x, maxAge)
  {
    PrefixNoRepeats(log, h);
    RegisteredRecent(log, ages, maxAge, h, x);
    if |ages| < maxAge { ShortLog(log, ages, maxAge); }
  }

  /**
   * After a registration every stored hash is recent exactly if the table was
   * full, or no other hash in it had reached the maximal age.
   */
  lemma OnlyRecentExactly(log: Log, ages: map<Hash, nat>, maxAge: nat, h: Hash)
    requires Matches(log, ages, maxAge)
    ensures (forall x :: x in Registered(ages, |log|, maxAge, h) ==> IsRecent(log + [Some(h)], x, maxAge)) <==>
              |ages| >= maxAge || forall x :: x in ages && x != h ==> |log| - ages[x] <= maxAge
  {
    var now := Registered(ages, |log|, maxAge, h);
    forall x: Hash | x in now
      ensures IsRecent(log + [Some(h)], x, maxAge) <==> |log| - now[x] <= maxAge
    {
      RegisteredRecent(log, ages, maxAge, h, x);
    }
    assert |ages| < maxAge ==> forall x :: x in ages ==> x in now && (x != h ==> now[x] == ages[x]);
  }

  lemma RegisterMatches(log: Log, ages: map<Hash, nat>, maxAge: nat, h: Hash)
    requires Matches(log, ages, maxAge)
    ensures Matches(log + [Some(h)], Registered(ages, |log|, maxAge, h), maxAge)
  {
    var longer: Log, now := log + [Some(h)], Registered(ages, |log|, maxAge, h);
    forall x: Hash
      ensures x in now ==> Latest(longer, x) == Some(now[x])
      ensures IsRecent(longer, x, maxAge) ==> x in now
      ensures NoRepeats(longer) && x in now ==> IsRecent(longer, x, maxAge)
    {
      RegisteredRecent(log, ages, maxAge, h, x);
      if NoRepeats(longer) { RegisteredExact(log, ages, maxAge, h, x); }
    }
    RegisteredSize(log, ages, maxAge, h);
  }

  /** With repeats an old hash may stay: nothing is dropped until the table is full. */
  lemma RepeatsKeepOldHash(a: Hash, b: Hash)
    requires a != b
    ensures var once := Registered(map[a := 0], 1, 3, b);
            var twice := Registered(once, 2, 3, b);
            var thrice := Registered(twice, 3, 3, b);
            var now := Registered(thrice, 4, 3, b);
            a in now && 4 - now[a] > 3
  {
    assert map[a := 0].Keys == {a};
    var once := Registered(map[a := 0], 1, 3, b);
    assert once.Keys == {a, b};
    var twice := Registered(once, 2, 3, b);
    assert twice.Keys == {a, b};
    var thrice := Registered(twice, 3, 3, b);
    assert thrice.Keys == {a, b};
  }

  class BlockhashQueue {
    var lastHashIndex: nat
    var lastHash: Option<Hash>
    var ages: map<Hash, nat>
    const maxAge: nat
    ghost var log: Log

    ghost predicate Valid()
      reads this
    {
      && lastHashIndex == |log| - 1
      && lastHash == log[|log| - 1]
      && Matches(log, ages, maxAge)
    }

    constructor (maxAge: nat)
      ensures Valid() && this.maxAge == maxAge && log == [None]
    {
      this.maxAge := maxAge;
      ages, lastHashIndex, lastHash, log := map[], 0, None, [None];
    }

    /** Whether the hash is at most `age` registrations old. */
    method IsHashValidForAge(h: Hash, age: nat) returns (ok: bool)
      requires Valid()
      ensures age <= maxAge ==> (ok <==> IsRecent(log, h, age))
      ensures ok ==> IsRecent(log, h, age)
    {
      ok := h in ages && lastHashIndex - ages[h] <= age;
    }

    method IsHashValid(h: Hash) returns (ok: bool)
      requires Valid()
      ensures IsRecent(log, h, maxAge) ==> ok
      ensures NoRepeats(log) ==> (ok <==> IsRecent(log, h, maxAge))
    {
      ok := h in ages;
    }

    method GetHashAge(h: Hash) returns (age: Option<nat>)
      requires Valid()
      ensures age.Some? ==> Latest(log, h) == Some(|log| - 1 - age.value)
      ensures IsRecent(log, h, maxAge) ==> age.Some?
    {
      age := if h in ages then Some(lastHashIndex - ages[h]) else None;
    }

    /** Sets the hash of index 0; on a queue without hashes this begins the log. */
    method GenesisHash(h: Hash)
      requires Valid()
      modifies this
      ensures ages == old(ages)[h := 0] && lastHash == Some(h) && lastHashIndex == old(lastHashIndex)
      ensures old(log) == [None] ==> Valid() && log == [Some(h)]
    {
      ages := ages[h := 0];
      lastHash := Some(h);
      if log == [None] {
        forall x: Hash ensures Latest([None], x).None? {}
        log := [Some(h)];
        assert ages.Keys == {h};
        forall x: Hash ensures Latest(log, x) == if x == h then Some(0) else None {}
      }
    }

    method RegisterHash(h: Hash)
      requires Valid()
      modifies this
      ensures Valid() && log == old(log) + [Some(h)]
      ensures ages == Registered(old(ages), old(lastHashIndex) + 1, maxAge, h)
    {
      ghost var longer: Log := log + [Some(h)];
      RegisterMatches(log, ages, maxAge, h);
      var last := lastHashIndex + 1;
      var kept := ages;
      if |ages| >= maxAge { kept := Retained(ages, last, maxAge); }
      ages := kept[h := last];
      lastHashIndex, lastHash, log := last, Some(h), longer;
    }
  }
}
