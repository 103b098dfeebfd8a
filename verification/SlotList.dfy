/** The slot list of one pubkey: fork-aware lookup, cleaning of outdated roots, and updates. */
module SlotList {
  import opened Ascending
  import opened Common
  import opened AccountInfo

  datatype Entry = Entry(slot: Slot, info: AccountInfo)

  type SlotList = seq<Entry>

  // ----- the specification of a lookup -----

  /** An entry is visible if its slot is an ancestor, or a root not above `maxRoot`. */
  predicate Visible(slot: Slot, ancestors: set<Slot>, roots: set<Slot>, maxRoot: Option<Slot>) {
    slot in ancestors || (slot in roots && (maxRoot.None? || slot <= maxRoot.value))
  }

  /** The entry with the highest visible slot; the last one in the list if there are several. */
  function Lookup(list: SlotList, ancestors: set<Slot>, roots: set<Slot>, maxRoot: Option<Slot>): (r: Option<Entry>)
    ensures r.Some? ==> r.value in list && Visible(r.value.slot, ancestors, roots, maxRoot)
  {
    if list == [] then None
    else
      var n := |list| - 1;
      var r := Lookup(list[..n], ancestors, roots, maxRoot);
      if Visible(list[n].slot, ancestors, roots, maxRoot) && (r.None? || r.value.slot <= list[n].slot)
      then Some(list[n]) else r
  }

  /** Every visible entry is at or below the entry found. */
  lemma {:induction false} LookupIsAbove(list: SlotList, ancestors: set<Slot>, roots: set<Slot>, maxRoot: Option<Slot>,
                                         i: nat)
    requires i < |list| && Visible(list[i].slot, ancestors, roots, maxRoot)
    ensures var r := Lookup(list, ancestors, roots, maxRoot); r.Some? && list[i].slot <= r.value.slot
    decreases |list|
  {
    var n := |list| - 1;
    if i < n { LookupIsAbove(list[..n], ancestors, roots, maxRoot, i); }
  }

  /** r is the index of the highest visible slot, the last such index. */
  ghost predicate IsLatest(list: SlotList, ancestors: set<Slot>, roots: set<Slot>, maxRoot: Option<Slot>,
                           r: Option<nat>)
  {
    match r
    case None => forall j :: 0 <= j < |list| ==> !Visible(list[j].slot, ancestors, roots, maxRoot)
    case Some(i) =>
      && i < |list| && Visible(list[i].slot, ancestors, roots, maxRoot)
      && forall j :: 0 <= j < |list| && Visible(list[j].slot, ancestors, roots, maxRoot) ==>
           list[j].slot <= list[i].slot && (list[j].slot == list[i].slot ==> j <= i)
  }

  /** The lookup is the last of the highest visible entries; it finds nothing exactly if nothing is visible. */
  lemma {:induction false} LookupIsHighest(list: SlotList, ancestors: set<Slot>, roots: set<Slot>,
                                           maxRoot: Option<Slot>)
    returns (r: Option<nat>)
    ensures IsLatest(list, ancestors, roots, maxRoot, r)
    ensures Lookup(list, ancestors, roots, maxRoot) == if r.Some? then Some(list[r.value]) else None
    decreases |list|
  {
    if list == [] {
      r := None;
    } else {
      var n := |list| - 1;
      r := LookupIsHighest(list[..n], ancestors, roots, maxRoot);
      if Visible(list[n].slot, ancestors, roots, maxRoot) && (r.None? || list[r.value].slot <= list[n].slot) {
        r := Some(n);
      }
    }
  }

  /** In terms of ancestors and roots: what is found is seen, and nothing that is seen lies above it. */
  lemma LookupSees(list: SlotList, ancestors: set<Slot>, roots: set<Slot>, maxRoot: Option<Slot>, i: nat)
    requires i < |list|
    ensures var r := Lookup(list, ancestors, roots, maxRoot);
            && (r.Some? ==> r.value.slot in ancestors
                            || (r.value.slot in roots && (maxRoot.None? || r.value.slot <= maxRoot.value)))
            && (list[i].slot in ancestors ==> r.Some? && list[i].slot <= r.value.slot)
            && (list[i].slot in roots && maxRoot.None? ==> r.Some? && list[i].slot <= r.value.slot)
            && (list[i].slot in roots && maxRoot.Some? && list[i].slot <= maxRoot.value ==>
                  r.Some? && list[i].slot <= r.value.slot)
  {
    if Visible(list[i].slot, ancestors, roots, maxRoot) { LookupIsAbove(list, ancestors, roots, maxRoot, i); }
  }

  /** The index and the lookup name the same entry. */
  lemma {:induction false} LatestIsLookup(list: SlotList, ancestors: set<Slot>, roots: set<Slot>,
                                          maxRoot: Option<Slot>, r: Option<nat>)
    requires IsLatest(list, ancestors, roots, maxRoot, r)
    ensures Lookup(list, ancestors, roots, maxRoot) == if r.Some? then Some(list[r.value]) else None
    decreases |list|
  {
    if list != [] {
      var n := |list| - 1;
      if r.None? || r.value < n {
        assert IsLatest(list[..n], ancestors, roots, maxRoot, r);
        LatestIsLookup(list[..n], ancestors, roots, maxRoot, r);
      } else {
        var before := Lookup(list[..n], ancestors, roots, maxRoot);
        if before.Some? {
          var j :| 0 <= j < n && list[..n][j] == before.value;
          assert list[j] == before.value;
        }
      }
    }
  }

  /** The two loops of `latest_slot`, from the end of the list: first ancestors, then roots. */
  method LatestSlot(ancestors: Option<set<Slot>>, list: SlotList, maxRoot: Option<Slot>, roots: set<Slot>)
    returns (r: Option<nat>)
    ensures IsLatest(list, if ancestors.Some? then ancestors.value else {}, roots, maxRoot, r)
  {
    ghost var anc := if ancestors.Some? then ancestors.value else {};
    var n := |list|;
    var currentMax := 0;
    var rv: Option<nat> := None;
    if ancestors.Some? && ancestors.value != {} {
      for i := 0 to n
        invariant rv.None? ==> forall j :: n - i <= j < n ==> list[j].slot !in anc
        invariant rv.Some? ==> rv.value < i && list[n - 1 - rv.value].slot == currentMax && currentMax in anc
        invariant rv.Some? ==> forall j :: n - i <= j < n && list[j].slot in anc ==>
                    list[j].slot <= currentMax && (list[j].slot == currentMax ==> j <= n - 1 - rv.value)
      {
        var slot := list[n - 1 - i].slot;
        if (rv.None? || slot > currentMax) && slot in ancestors.value {
          rv, currentMax := Some(i), slot;
        }
      }
    }
    for i := 0 to n
      invariant rv.None? ==> forall j :: 0 <= j < n ==>
                  list[j].slot !in anc && (n - i <= j ==> !Visible(list[j].slot, anc, roots, maxRoot))
      invariant rv.Some? ==> rv.value < n && list[n - 1 - rv.value].slot == currentMax
                             && Visible(currentMax, anc, roots, maxRoot) && (currentMax in anc || rv.value < i)
      invariant rv.Some? ==> forall j :: 0 <= j < n && Visible(list[j].slot, anc, roots, maxRoot)
                                         && (list[j].slot in anc || n - i <= j) ==>
                  list[j].slot <= currentMax && (list[j].slot == currentMax ==> j <= n - 1 - rv.value)
    {
      var slot := list[n - 1 - i].slot;
      if (rv.None? || slot > currentMax) && (maxRoot.None? || slot <= maxRoot.value) {
        if slot in roots {
          rv, currentMax := Some(i), slot;
        }
      }
    }
    r := if rv.Some? then Some(n - 1 - rv.value) else None;
  }

  // ----- removing entries, and when a lookup does not notice -----

  function Filter(list: SlotList, keep: Entry -> bool): (r: SlotList) {
    if list == [] then []
    else Filter(list[..|list| - 1], keep) + if keep(list[|list| - 1]) then [list[|list| - 1]] else []
  }

  lemma {:induction false} FilterMembers(list: SlotList, keep: Entry -> bool, e: Entry)
    ensures e in Filter(list, keep) <==> e in list && keep(e)
    decreases |list|
  {
    if list != [] {
      var n := |list| - 1;
      FilterMembers(list[..n], keep, e);
      assert list == list[..n] + [list[n]];
    }
  }

  lemma FilterAppend(list: SlotList, last: Entry, keep: Entry -> bool)
    ensures Filter(list + [last], keep) == Filter(list, keep) + if keep(last) then [last] else []
  {
    assert (list + [last])[..|list|] == list;
  }

  lemma {:induction false} FilterAt(list: SlotList, keep: Entry -> bool, n: nat, p: nat -> bool)
    requires n <= |list| && forall i :: 0 <= i < n ==> (p(i) <==> keep(list[i]))
    ensures var left := Filter(list[..n], keep);
            && |left| == |Positions(n, p)|
            && forall j :: 0 <= j < |left| ==> Positions(n, p)[j] < n && left[j] == list[Positions(n, p)[j]]
  {
    if n > 0 {
      FilterAt(list, keep, n - 1, p);
      assert list[..n][..n - 1] == list[..n - 1];
    }
  }

  /** The entries left are those at the positions kept, in order. */
  lemma FilterPositions(list: SlotList, keep: Entry -> bool) returns (pos: seq<nat>)
    ensures IsAscending(pos)
    ensures forall i: nat :: i in pos <==> i < |list| && keep(list[i])
    ensures |Filter(list, keep)| == |pos|
    ensures forall j :: 0 <= j < |pos| ==> pos[j] < |list| && Filter(list, keep)[j] == list[pos[j]]
  {
    var p := (i: nat) => i < |list| && keep(list[i]);
    pos := Positions(|list|, p);
    PositionsAre(|list|, p);
    FilterAt(list, keep, |list|, p);
    assert list[..|list|] == list;
  }

  /** Removing entries changes a lookup exactly when the entry found is removed. */
  lemma FilterLookup(list: SlotList, keep: Entry -> bool, ancestors: set<Slot>, roots: set<Slot>, maxRoot: Option<Slot>)
    ensures var found := Lookup(list, ancestors, roots, maxRoot);
            Lookup(Filter(list, keep), ancestors, roots, maxRoot) == found <==> found.None? || keep(found.value)
  {
    var found := Lookup(list, ancestors, roots, maxRoot);
    FilterNotAbove(list, keep, ancestors, roots, maxRoot);
    if found.Some? { FilterMembers(list, keep, found.value); }
    if found.Some? && keep(found.value) {
      FilterKeepsFound(list, keep, ancestors, roots, maxRoot);
    }
  }

  /** A lookup in a longer list considers the last entry last. */
  lemma LookupAppend(list: SlotList, last: Entry, ancestors: set<Slot>, roots: set<Slot>, maxRoot: Option<Slot>)
    ensures var r := Lookup(list, ancestors, roots, maxRoot);
            Lookup(list + [last], ancestors, roots, maxRoot)
            == if Visible(last.slot, ancestors, roots, maxRoot) && (r.None? || r.value.slot <= last.slot)
               then Some(last) else r
  {
    assert (list + [last])[..|list|] == list;
  }

  /** A filtered list finds nothing above what the list finds. */
  lemma FilterNotAbove(list: SlotList, keep: Entry -> bool, ancestors: set<Slot>, roots: set<Slot>,
                       maxRoot: Option<Slot>)
    ensures var r, r' := Lookup(list, ancestors, roots, maxRoot), Lookup(Filter(list, keep), ancestors, roots, maxRoot);
            r'.Some? ==> r.Some? && r'.value.slot <= r.value.slot
  {
    var r' := Lookup(Filter(list, keep), ancestors, roots, maxRoot);
    if r'.Some? {
      FilterMembers(list, keep, r'.value);
      var i :| 0 <= i < |list| && list[i] == r'.value;
      LookupIsAbove(list, ancestors, roots, maxRoot, i);
    }
  }

  lemma {:induction false} FilterKeepsFound(list: SlotList, keep: Entry -> bool, ancestors: set<Slot>,
                                            roots: set<Slot>, maxRoot: Option<Slot>)
    requires Lookup(list, ancestors, roots, maxRoot).Some? && keep(Lookup(list, ancestors, roots, maxRoot).value)
    ensures Lookup(Filter(list, keep), ancestors, roots, maxRoot) == Lookup(list, ancestors, roots, maxRoot)
    decreases |list|
  {
    var n := |list| - 1;
    var before, last := Lookup(list[..n], ancestors, roots, maxRoot), list[n];
    assert list == list[..n] + [last];
    FilterAppend(list[..n], last, keep);
    assert !keep(last) ==> Filter(list, keep) == Filter(list[..n], keep);
    LookupAppend(Filter(list[..n], keep), last, ancestors, roots, maxRoot);
    if Visible(last.slot, ancestors, roots, maxRoot) && (before.None? || before.value.slot <= last.slot) {
      FilterNotAbove(list[..n], keep, ancestors, roots, maxRoot);
    } else {
      FilterKeepsFound(list[..n], keep, ancestors, roots, maxRoot);
    }
  }

  /** Only the visible entries of a list matter. */
  lemma LookupOfVisible(list: SlotList, ancestors: set<Slot>, roots: set<Slot>, maxRoot: Option<Slot>)
    ensures Lookup(list, ancestors, roots, maxRoot)
         == Lookup(Filter(list, (e: Entry) => Visible(e.slot, ancestors, roots, maxRoot)), ancestors, roots, maxRoot)
  {
    FilterLookup(list, (e: Entry) => Visible(e.slot, ancestors, roots, maxRoot), ancestors, roots, maxRoot);
  }

  /** Two root sets that agree on the slots of the list give the same lookup. */
  lemma {:induction false} LookupAgrees(list: SlotList, ancestors: set<Slot>, roots: set<Slot>, roots': set<Slot>,
                                        maxRoot: Option<Slot>)
    requires forall e :: e in list ==>
              (Visible(e.slot, ancestors, roots, maxRoot) <==> Visible(e.slot, ancestors, roots', maxRoot))
    ensures Lookup(list, ancestors, roots, maxRoot) == Lookup(list, ancestors, roots', maxRoot)
    decreases |list|
  {
    if list != [] {
      var n := |list| - 1;
      assert list[n] in list;
      LookupAgrees(list[..n], ancestors, roots, roots', maxRoot);
    }
  }

  // ----- cleaning -----

  /** The highest root in the list that is not above the bound; 0 if there is none. */
  function NewestRoot(list: SlotList, roots: set<Slot>, bound: Option<Slot>): (r: Slot)
    ensures r == 0 || (r in roots && (bound.None? || r <= bound.value) &&
                       exists i :: 0 <= i < |list| && list[i].slot == r)
    ensures forall i :: 0 <= i < |list| && list[i].slot in roots && (bound.None? || list[i].slot <= bound.value) ==>
              list[i].slot <= r
  {
    if list == [] then 0
    else
      var n := |list| - 1;
      var r := NewestRoot(list[..n], roots, bound);
      assert r == 0 || exists i :: 0 <= i < n && list[..n][i].slot == r;
      assert forall i :: 0 <= i < n ==> list[..n][i] == list[i];
      if (bound.None? || list[n].slot <= bound.value) && list[n].slot > r && list[n].slot in roots
      then list[n].slot else r
  }

  predicate CanPurgeOlderEntries(maxCleanRootExclusive: Slot, newestRoot: Slot, slot: Slot) {
    slot < maxCleanRootExclusive && slot != newestRoot
  }

  /** The entries that cleaning with bound `maxClean` keeps; `newest` is the newest root in the list. */
  predicate Keeps(maxClean: Slot, newest: Slot, e: Entry) {
    !(CanPurgeOlderEntries(maxClean, newest, e.slot) && !e.info.IsCached())
  }

  function EffectiveBound(bound: Option<Slot>, maxAliveRoot: Slot): (r: Slot) {
    if bound.Some? then bound.value else maxAliveRoot
  }

  /** What is left of a list after cleaning. */
  function Purged(list: SlotList, roots: set<Slot>, maxAliveRoot: Slot, bound: Option<Slot>): (r: SlotList) {
    var newest := NewestRoot(list, roots, bound);
    Filter(list, (e: Entry) => Keeps(EffectiveBound(bound, maxAliveRoot), newest, e))
  }

  function Reclaimed(list: SlotList, roots: set<Slot>, maxAliveRoot: Slot, bound: Option<Slot>): (r: SlotList) {
    var newest := NewestRoot(list, roots, bound);
    Filter(list, (e: Entry) => !Keeps(EffectiveBound(bound, maxAliveRoot), newest, e))
  }

  method GetNewestRootInSlotList(roots: set<Slot>, list: SlotList, bound: Option<Slot>) returns (maxRoot: Slot)
    ensures maxRoot == NewestRoot(list, roots, bound)
  {
    maxRoot := 0;
    for i := 0 to |list|
      invariant maxRoot == NewestRoot(list[..i], roots, bound)
    {
      assert list[..i + 1][..i] == list[..i];
      var slot := list[i].slot;
      if bound.Some? && slot > bound.value { continue; }
      if slot > maxRoot && slot in roots {
        maxRoot := slot;
      }
    }
    assert list[..|list|] == list;
  }

  method PurgeOlderRootEntries(list: SlotList, reclaims0: SlotList, roots: set<Slot>, maxAliveRoot: Slot,
                               bound: Option<Slot>)
    returns (kept: SlotList, reclaims: SlotList)
    ensures kept == Purged(list, roots, maxAliveRoot, bound)
    ensures reclaims == reclaims0 + Reclaimed(list, roots, maxAliveRoot, bound)
  {
    var newest := GetNewestRootInSlotList(roots, list, bound);
    var maxClean := if bound.Some? then bound.value else maxAliveRoot;
    var keep := (e: Entry) => Keeps(maxClean, newest, e);
    var drop := (e: Entry) => !Keeps(maxClean, newest, e);
    kept, reclaims := [], reclaims0;
    for i := 0 to |list|
      invariant kept == Filter(list[..i], keep)
      invariant reclaims == reclaims0 + Filter(list[..i], drop)
    {
      assert list[..i + 1] == list[..i] + [list[i]];
      FilterAppend(list[..i], list[i], keep);
      FilterAppend(list[..i], list[i], drop);
      if CanPurgeOlderEntries(maxClean, newest, list[i].slot) && !list[i].info.IsCached() {
        reclaims := reclaims + [list[i]];
      } else {
        kept := kept + [list[i]];
      }
    }
    assert list[..|list|] == list;
  }

  /** Kept, in order, are cached entries, those not below the bound, and the newest root; the others are reclaimed. */
  lemma PurgedExactly(list: SlotList, roots: set<Slot>, maxAliveRoot: Slot, bound: Option<Slot>)
    returns (kept: seq<nat>, gone: seq<nat>)
    ensures IsAscending(kept) && IsAscending(gone)
    ensures forall i: nat :: i in kept <==> i < |list| && i !in gone
    ensures forall i: nat :: i in gone <==>
              && i < |list| && !list[i].info.IsCached()
              && list[i].slot < (if bound.Some? then bound.value else maxAliveRoot)
              && list[i].slot != NewestRoot(list, roots, bound)
    ensures |Purged(list, roots, maxAliveRoot, bound)| == |kept|
    ensures |Reclaimed(list, roots, maxAliveRoot, bound)| == |gone|
    ensures forall j :: 0 <= j < |kept| ==>
              kept[j] < |list| && Purged(list, roots, maxAliveRoot, bound)[j] == list[kept[j]]
    ensures forall j :: 0 <= j < |gone| ==>
              gone[j] < |list| && Reclaimed(list, roots, maxAliveRoot, bound)[j] == list[gone[j]]
  {
    var newest, limit := NewestRoot(list, roots, bound), EffectiveBound(bound, maxAliveRoot);
    kept := FilterPositions(list, (e: Entry) => Keeps(limit, newest, e));
    gone := FilterPositions(list, (e: Entry) => !Keeps(limit, newest, e));
  }

  /** Kept and reclaimed entries together are the old list. */
  lemma {:induction false} FilterPartition(list: SlotList, keep: Entry -> bool, drop: Entry -> bool)
    requires forall e :: keep(e) <==> !drop(e)
    ensures multiset(list) == multiset(Filter(list, keep)) + multiset(Filter(list, drop))
    decreases |list|
  {
    if list != [] {
      var n := |list| - 1;
      FilterPartition(list[..n], keep, drop);
      assert list == list[..n] + [list[n]];
    }
  }

  lemma PurgePartitions(list: SlotList, roots: set<Slot>, maxAliveRoot: Slot, bound: Option<Slot>)
    ensures multiset(list) == multiset(Purged(list, roots, maxAliveRoot, bound)) +
              multiset(Reclaimed(list, roots, maxAliveRoot, bound))
  {
    var newest := NewestRoot(list, roots, bound);
    var m := EffectiveBound(bound, maxAliveRoot);
    FilterPartition(list, (e: Entry) => Keeps(m, newest, e), (e: Entry) => !Keeps(m, newest, e));
  }

  /** Cleaning with effective bound m is not seen by a lookup whose maximum root is not below m and
      whose ancestors below m, as far as the list has them, are roots. */
  lemma PurgeKeepsLookup(list: SlotList, ancestors: set<Slot>, roots: set<Slot>, maxRoot: Option<Slot>,
                         maxAliveRoot: Slot, bound: Option<Slot>)
    requires forall r :: r in roots ==> r <= maxAliveRoot
    requires maxRoot.Some? ==> EffectiveBound(bound, maxAliveRoot) <= maxRoot.value
    requires forall e :: e in list && e.slot in ancestors && e.slot < EffectiveBound(bound, maxAliveRoot) ==>
              e.slot in roots
    ensures Lookup(Purged(list, roots, maxAliveRoot, bound), ancestors, roots, maxRoot) ==
              Lookup(list, ancestors, roots, maxRoot)
  {
    var newest := NewestRoot(list, roots, bound);
    var m := EffectiveBound(bound, maxAliveRoot);
    FilterLookup(list, (e: Entry) => Keeps(m, newest, e), ancestors, roots, maxRoot);
    var found := Lookup(list, ancestors, roots, maxRoot);
    if found.Some? && found.value.slot < m {
      var i :| 0 <= i < |list| && list[i] == found.value;
      assert found.value.slot <= newest;
      if newest != 0 {
        var j :| 0 <= j < |list| && list[j].slot == newest;
        LookupIsAbove(list, ancestors, roots, maxRoot, j);
      }
    }
  }

  /** For any bound: a lookup notices cleaning exactly when the entry found is purged. */
  lemma PurgeNoticedExactly(list: SlotList, ancestors: set<Slot>, roots: set<Slot>, maxRoot: Option<Slot>,
                            maxAliveRoot: Slot, bound: Option<Slot>)
    ensures var found := Lookup(list, ancestors, roots, maxRoot);
            Lookup(Purged(list, roots, maxAliveRoot, bound), ancestors, roots, maxRoot) == found
            <==> found.None? || found.value.info.IsCached()
                 || found.value.slot >= EffectiveBound(bound, maxAliveRoot)
                 || found.value.slot == NewestRoot(list, roots, bound)
  {
    var newest := NewestRoot(list, roots, bound);
    FilterLookup(list, (e: Entry) => Keeps(EffectiveBound(bound, maxAliveRoot), newest, e), ancestors, roots, maxRoot);
  }

  lemma {:induction false} FilterAll(list: SlotList, keep: Entry -> bool)
    requires forall e :: e in list ==> keep(e)
    ensures Filter(list, keep) == list
    decreases |list|
  {
    if list != [] {
      var n := |list| - 1;
      assert list[n] in list;
      FilterAll(list[..n], keep);
      assert list == list[..n] + [list[n]];
    }
  }

  /** Cleaning twice with the same bound is cleaning once. */
  lemma PurgeIdempotent(list: SlotList, roots: set<Slot>, maxAliveRoot: Slot, bound: Option<Slot>)
    ensures Purged(Purged(list, roots, maxAliveRoot, bound), roots, maxAliveRoot, bound) ==
              Purged(list, roots, maxAliveRoot, bound)
  {
    var kept := Purged(list, roots, maxAliveRoot, bound);
    var newest, newest' := NewestRoot(list, roots, bound), NewestRoot(kept, roots, bound);
    var keep := (e: Entry) => Keeps(EffectiveBound(bound, maxAliveRoot), newest, e);
    forall e: Entry ensures e in kept <==> e in list && keep(e) { FilterMembers(list, keep, e); }
    if newest' != 0 {
      var i :| 0 <= i < |kept| && kept[i].slot == newest';
      assert kept[i] in list;
    }
    if newest != 0 {
      var i :| 0 <= i < |list| && list[i].slot == newest;
      assert list[i] in kept;
    }
    assert newest == newest';
    FilterAll(kept, (e: Entry) => Keeps(EffectiveBound(bound, maxAliveRoot), newest', e));
  }
}
