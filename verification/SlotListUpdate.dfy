/** Inserting a new version into a slot list. */
module SlotListUpdate {
  import opened Common
  import opened AccountInfo
  import opened SlotList

  datatype UpsertReclaim = PreviousSlotEntryWasCached | PopulateReclaims | IgnoreReclaims

  /** No slot is in the list twice. */
  ghost predicate UniqueSlots(list: SlotList) {
    forall i, j :: 0 <= i < j < |list| ==> list[i].slot != list[j].slot
  }

  /** An entry that an update of `slot`, coming from `other`, replaces. */
  predicate Hit(e: Entry, slot: Slot, other: Slot) {
    e.slot == slot || e.slot == other
  }

  /** Neither slot is in the list twice: what the source asserts about the entries it replaces. */
  ghost predicate HitsOnce(list: SlotList, slot: Slot, other: Slot) {
    forall i, j :: 0 <= i < j < |list| && Hit(list[i], slot, other) && Hit(list[j], slot, other) ==>
      list[i].slot != list[j].slot
  }

  predicate HasHit(list: SlotList, slot: Slot, other: Slot) {
    exists i :: 0 <= i < |list| && Hit(list[i], slot, other)
  }

  /** The last entry hit becomes the new entry, the other one disappears. */
  function Replaced(list: SlotList, entry: Entry, other: Slot): (r: SlotList)
  {
    if list == [] then []
    else
      (if !Hit(list[0], entry.slot, other) then [list[0]]
       else if HasHit(list[1..], entry.slot, other) then [] else [entry])
      + Replaced(list[1..], entry, other)
  }

  /** The list after an update: the new entry replaces the old ones, or is appended. */
  function Updated(list: SlotList, entry: Entry, other: Slot): (r: SlotList) {
    if HasHit(list, entry.slot, other) then Replaced(list, entry, other) else list + [entry]
  }

  /** The entries hit, from the end of the list. */
  function HitsFromEnd(list: SlotList, slot: Slot, other: Slot): (r: SlotList) {
    if list == [] then []
    else HitsFromEnd(list[1..], slot, other) + if Hit(list[0], slot, other) then [list[0]] else []
  }

  lemma HasHitStep(list: SlotList, i: nat, slot: Slot, other: Slot)
    requires i < |list|
    ensures HasHit(list[i..], slot, other) <==> Hit(list[i], slot, other) || HasHit(list[i + 1..], slot, other)
    ensures list[i..][0] == list[i] && list[i..][1..] == list[i + 1..]
  {
    if HasHit(list[i + 1..], slot, other) {
      var j :| 0 <= j < |list[i + 1..]| && Hit(list[i + 1..][j], slot, other);
      assert list[i..][j + 1] == list[i + 1..][j];
    }
    if HasHit(list[i..], slot, other) {
      var j :| 0 <= j < |list[i..]| && Hit(list[i..][j], slot, other);
      if j > 0 { assert list[i..][j] == list[i + 1..][j - 1]; }
    }
    assert list[i..][0] == list[i];
  }

  ghost predicate AllHitsCached(list: SlotList, slot: Slot, other: Slot) {
    forall i :: 0 <= i < |list| && Hit(list[i], slot, other) ==> list[i].info.IsCached()
  }

  /** What entry i contributes, once the entries behind it have been done. */
  lemma UpdateStep(list: SlotList, i: nat, entry: Entry, other: Slot)
    requires i < |list|
    ensures var todo, done := list[..i], Replaced(list[i + 1..], entry, other);
            && (list[..i + 1] + done)[i] == list[i]
            && (!Hit(list[i], entry.slot, other) ==> todo + Replaced(list[i..], entry, other) == list[..i + 1] + done)
            && (Hit(list[i], entry.slot, other) && !HasHit(list[i + 1..], entry.slot, other) ==>
                  todo + Replaced(list[i..], entry, other) == (list[..i + 1] + done)[i := entry])
            && (Hit(list[i], entry.slot, other) && HasHit(list[i + 1..], entry.slot, other) ==>
                  todo + Replaced(list[i..], entry, other) ==
                    (list[..i + 1] + done)[..i] + (list[..i + 1] + done)[i + 1..])
  {
    HasHitStep(list, i, entry.slot, other);
    assert list[..i + 1] == list[..i] + [list[i]];
  }

  lemma HitStep(list: SlotList, i: nat, slot: Slot, other: Slot)
    requires i < |list|
    ensures HitsFromEnd(list[i..], slot, other)
         == HitsFromEnd(list[i + 1..], slot, other) + if Hit(list[i], slot, other) then [list[i]] else []
    ensures AllHitsCached(list[i..], slot, other)
         <==> AllHitsCached(list[i + 1..], slot, other) && (Hit(list[i], slot, other) ==> list[i].info.IsCached())
  {
    HasHitStep(list, i, slot, other);
    var rest := list[i + 1..];
    assert list[i..] == [list[i]] + rest;
    if AllHitsCached(list[i..], slot, other) {
      forall j | 0 <= j < |rest| && Hit(rest[j], slot, other) ensures rest[j].info.IsCached() {
        assert list[i..][j + 1] == rest[j];
      }
    }
  }

  /** The assertion of the loop: the slot of an entry was not found behind it. */
  lemma FirstHitOfSlot(list: SlotList, i: nat, slot: Slot, other: Slot)
    requires HitsOnce(list, slot, other) && i < |list| && Hit(list[i], slot, other)
    ensures !HasHit(list[i + 1..], list[i].slot, list[i].slot)
  {
    var rest := list[i + 1..];
    forall j | 0 <= j < |rest| ensures !Hit(rest[j], list[i].slot, list[i].slot) {
      assert rest[j] == list[i + 1 + j];
    }
  }

  /** The loop of `update_slot_list`, from the end because entries are deleted. Tells whether the
      caller has to add a reference: only if the new entry is stored and every old one was cached. */
  method UpdateSlotList(list0: SlotList, slot: Slot, info: AccountInfo, otherSlot: Option<Slot>,
                        reclaims0: SlotList, reclaim: UpsertReclaim)
    returns (addref: bool, list: SlotList, reclaims: SlotList)
    requires HitsOnce(list0, slot, Other(slot, otherSlot))
    requires reclaim.PreviousSlotEntryWasCached? ==> AllHitsCached(list0, slot, Other(slot, otherSlot))
    ensures list == Updated(list0, Entry(slot, info), if otherSlot.Some? then otherSlot.value else slot)
    ensures reclaims == reclaims0 +
              if reclaim.PopulateReclaims?
              then HitsFromEnd(list0, slot, if otherSlot.Some? then otherSlot.value else slot) else []
    ensures addref <==>
              && !info.IsCached()
              && AllHitsCached(list0, slot, if otherSlot.Some? then otherSlot.value else slot)
  {
    var other := Other(slot, otherSlot);
    var entry := Entry(slot, info);
    addref := !info.IsCached();
    var found := false;
    var hits: SlotList := [];
    list := list0;
    var i := |list0|;
    while i > 0
      invariant 0 <= i <= |list0|
      invariant list == list0[..i] + Replaced(list0[i..], entry, other)
      invariant found <==> HasHit(list0[i..], slot, other)
      invariant hits == HitsFromEnd(list0[i..], slot, other)
      invariant addref <==> !info.IsCached() && AllHitsCached(list0[i..], slot, other)
    {
      i := i - 1;
      HasHitStep(list0, i, slot, other);
      UpdateStep(list0, i, entry, other);
      HitStep(list0, i, slot, other);
      var cur := list[i];
      if cur.slot == slot || cur.slot == other {
        FirstHitOfSlot(list0, i, slot, other);
        assert !HasHit(list0[i + 1..], cur.slot, cur.slot);
        assert reclaim.PreviousSlotEntryWasCached? ==> cur.info.IsCached();
        list := if !found then list[i := entry] else list[..i] + list[i + 1..];
        hits := hits + [cur];
        found := true;
        if !cur.info.IsCached() { addref := false; }
      }
    }
    assert list0[0..] == list0;
    reclaims := reclaims0 + if reclaim.PopulateReclaims? then hits else [];
    if !found {
      ReplacedNone(list0, entry, other);
      list := list + [entry];
    }
  }

  /** The source ignores a second slot that is the same as the first. */
  function Other(slot: Slot, otherSlot: Option<Slot>): (r: Slot) {
    if otherSlot.Some? then otherSlot.value else slot
  }

  lemma {:induction false} ReplacedNone(list: SlotList, entry: Entry, other: Slot)
    requires !HasHit(list, entry.slot, other)
    ensures Replaced(list, entry, other) == list
    decreases |list|
  {
    if list != [] {
      assert list[0..] == list;
      HasHitStep(list, 0, entry.slot, other);
      ReplacedNone(list[1..], entry, other);
    }
  }

  // ----- what an update means for the entries and for a lookup -----

  lemma {:induction false} FilterSplit(a: SlotList, b: SlotList, keep: Entry -> bool)
    ensures Filter(a + b, keep) == Filter(a, keep) + Filter(b, keep)
    decreases |b|
  {
    if b == [] {
      assert a + b == a;
    } else {
      assert (a + b)[..|a + b| - 1] == a + b[..|b| - 1];
      FilterSplit(a, b[..|b| - 1], keep);
    }
  }

  /** Entries of other slots stay, in order. */
  lemma {:induction false} ReplacedKeepsOthers(list: SlotList, entry: Entry, other: Slot, keep: Entry -> bool)
    requires forall e :: Hit(e, entry.slot, other) ==> !keep(e)
    ensures Filter(Replaced(list, entry, other), keep) == Filter(list, keep)
    decreases |list|
  {
    if list != [] {
      ReplacedKeepsOthers(list[1..], entry, other, keep);
      var head := if !Hit(list[0], entry.slot, other) then [list[0]]
                  else if HasHit(list[1..], entry.slot, other) then [] else [entry];
      FilterSplit(head, Replaced(list[1..], entry, other), keep);
      FilterSplit([list[0]], list[1..], keep);
      assert list == [list[0]] + list[1..];
      assert Hit(entry, entry.slot, other);
    }
  }

  lemma UpdatedKeepsOthers(list: SlotList, entry: Entry, other: Slot, keep: Entry -> bool)
    requires forall e :: Hit(e, entry.slot, other) ==> !keep(e)
    ensures Filter(Updated(list, entry, other), keep) == Filter(list, keep)
  {
    if HasHit(list, entry.slot, other) {
      ReplacedKeepsOthers(list, entry, other, keep);
    } else {
      FilterAppend(list, entry, keep);
      assert Hit(entry, entry.slot, other);
    }
  }

  /** A lookup that sees neither slot does not notice the update. */
  lemma UpdateUnseen(list: SlotList, entry: Entry, other: Slot, ancestors: set<Slot>, roots: set<Slot>,
                     maxRoot: Option<Slot>)
    requires !Visible(entry.slot, ancestors, roots, maxRoot) && !Visible(other, ancestors, roots, maxRoot)
    ensures Lookup(Updated(list, entry, other), ancestors, roots, maxRoot) == Lookup(list, ancestors, roots, maxRoot)
  {
    LookupOfVisible(list, ancestors, roots, maxRoot);
    LookupOfVisible(Updated(list, entry, other), ancestors, roots, maxRoot);
    UpdatedKeepsOthers(list, entry, other, (e: Entry) => Visible(e.slot, ancestors, roots, maxRoot));
  }

  lemma {:induction false} ReplacedMembers(list: SlotList, entry: Entry, other: Slot, e: Entry)
    ensures e in Replaced(list, entry, other) <==>
              (e in list && !Hit(e, entry.slot, other)) || (e == entry && HasHit(list, entry.slot, other))
    decreases |list|
  {
    if list != [] {
      ReplacedMembers(list[1..], entry, other, e);
      assert list[0..] == list;
      HasHitStep(list, 0, entry.slot, other);
      assert list == [list[0]] + list[1..];
      assert Hit(entry, entry.slot, other);
    }
  }

  /** After an update the list holds the new entry and the old entries of all other slots. */
  lemma UpdatedMembers(list: SlotList, entry: Entry, other: Slot, e: Entry)
    ensures e in Updated(list, entry, other) <==>
              e == entry || (e in list && e.slot != entry.slot && e.slot != other)
  {
    ReplacedMembers(list, entry, other, e);
    if !HasHit(list, entry.slot, other) && e in list {
      var i :| 0 <= i < |list| && list[i] == e;
    }
  }

  lemma {:induction false} ReplacedPlace(list: SlotList, entry: Entry, other: Slot, k: nat)
    requires k < |list| && Hit(list[k], entry.slot, other)
    requires forall j :: k < j < |list| ==> !Hit(list[j], entry.slot, other)
    ensures Replaced(list, entry, other) ==
              Filter(list[..k], (e: Entry) => e.slot != entry.slot && e.slot != other) + [entry] + list[k + 1..]
    decreases |list|
  {
    if k == 0 {
      assert !HasHit(list[1..], entry.slot, other);
      ReplacedNone(list[1..], entry, other);
      assert list[..0] == [];
    } else {
      assert list[1..][k - 1] == list[k] && HasHit(list[1..], entry.slot, other);
      ReplacedPlace(list[1..], entry, other, k - 1);
      OthersBefore(list, entry.slot, other, k);
      assert list[1..][k..] == list[k + 1..];
    }
  }

  lemma OthersBefore(list: SlotList, slot: Slot, other: Slot, k: nat)
    requires 0 < k <= |list|
    ensures var keep := (e: Entry) => e.slot != slot && e.slot != other;
            Filter(list[..k], keep) == (if keep(list[0]) then [list[0]] else []) + Filter(list[1..][..k - 1], keep)
  {
    var keep := (e: Entry) => e.slot != slot && e.slot != other;
    assert list[..k] == [list[0]] + list[1..][..k - 1];
    FilterSplit([list[0]], list[1..][..k - 1], keep);
    assert [list[0]][..0] == [];
  }

  /** The new entry takes the place of the last old one at either slot; the other old one goes, all else stays. */
  lemma UpdatedPlace(list: SlotList, entry: Entry, other: Slot, k: nat)
    requires k < |list| && (list[k].slot == entry.slot || list[k].slot == other)
    requires forall j :: k < j < |list| ==> list[j].slot != entry.slot && list[j].slot != other
    ensures Updated(list, entry, other) ==
              Filter(list[..k], (e: Entry) => e.slot != entry.slot && e.slot != other) + [entry] + list[k + 1..]
  {
    ReplacedPlace(list, entry, other, k);
  }

  /** Without an old one it comes last. */
  lemma UpdatedAtEnd(list: SlotList, entry: Entry, other: Slot)
    requires forall e :: e in list ==> e.slot != entry.slot && e.slot != other
    ensures Updated(list, entry, other) == list + [entry]
  {
  }

  /** The entries hit are those at the two slots, from the end of the list. */
  lemma {:induction false} HitsFromEndAre(list: SlotList, slot: Slot, other: Slot)
    ensures var hits := Filter(list, (e: Entry) => e.slot == slot || e.slot == other);
            && |HitsFromEnd(list, slot, other)| == |hits|
            && forall i :: 0 <= i < |hits| ==> HitsFromEnd(list, slot, other)[i] == hits[|hits| - 1 - i]
    decreases |list|
  {
    if list != [] {
      var hit := (e: Entry) => e.slot == slot || e.slot == other;
      HitsFromEndAre(list[1..], slot, other);
      assert list == [list[0]] + list[1..];
      FilterSplit([list[0]], list[1..], hit);
      assert [list[0]][..0] == [];
    }
  }

  /** All of them are cached. */
  lemma AllHitsCachedIs(list: SlotList, slot: Slot, other: Slot)
    ensures AllHitsCached(list, slot, other) <==>
              forall e :: e in list && (e.slot == slot || e.slot == other) ==> e.info.IsCached()
  {
    if AllHitsCached(list, slot, other) {
      forall e | e in list && (e.slot == slot || e.slot == other) ensures e.info.IsCached() {
        var i :| 0 <= i < |list| && list[i] == e;
        assert Hit(list[i], slot, other);
      }
    }
  }

  lemma {:induction false} ReplacedUnique(list: SlotList, entry: Entry, other: Slot)
    requires UniqueSlots(list)
    ensures UniqueSlots(Replaced(list, entry, other))
    decreases |list|
  {
    if list != [] {
      ReplacedUnique(list[1..], entry, other);
      var rest := Replaced(list[1..], entry, other);
      forall i | 0 <= i < |rest|
        ensures !Hit(list[0], entry.slot, other) ==> rest[i].slot != list[0].slot
        ensures !HasHit(list[1..], entry.slot, other) ==> rest[i].slot != entry.slot
      {
        ReplacedMembers(list[1..], entry, other, rest[i]);
        assert Hit(entry, entry.slot, other);
        if rest[i] in list[1..] {
          var j :| 0 <= j < |list[1..]| && list[1..][j] == rest[i];
          assert list[0].slot != list[j + 1].slot;
        }
      }
    }
  }

  /** An update keeps slots unique. */
  lemma UpdatedUnique(list: SlotList, entry: Entry, other: Slot)
    requires UniqueSlots(list)
    ensures UniqueSlots(Updated(list, entry, other))
  {
    if HasHit(list, entry.slot, other) {
      ReplacedUnique(list, entry, other);
    } else {
      assert forall i :: 0 <= i < |list| ==> !Hit(list[i], entry.slot, other);
    }
  }

  /** Removing entries keeps slots unique. */
  lemma {:induction false} FilterUnique(list: SlotList, keep: Entry -> bool)
    requires UniqueSlots(list)
    ensures UniqueSlots(Filter(list, keep))
    decreases |list|
  {
    if list != [] {
      var n := |list| - 1;
      var rest := Filter(list[..n], keep);
      FilterUnique(list[..n], keep);
      forall i | 0 <= i < |rest| ensures rest[i].slot != list[n].slot {
        FilterMembers(list[..n], keep, rest[i]);
      }
    }
  }

  // ----- moving the version of a slot -----

  /** The update replaces the version of a slot that is there already, and nothing else. */
  ghost predicate Relocates(list: SlotList, entry: Entry, other: Slot) {
    && HasHit(list, entry.slot, entry.slot)
    && (other == entry.slot || !HasHit(list, other, other))
  }

  /** The list with every entry of the slot replaced in its place. */
  function Relocated(list: SlotList, entry: Entry): (r: SlotList) {
    if list == [] then []
    else
      var last := list[|list| - 1];
      Relocated(list[..|list| - 1], entry) + [if last.slot == entry.slot then entry else last]
  }

  lemma {:induction false} RelocatedConcat(a: SlotList, b: SlotList, entry: Entry)
    ensures Relocated(a + b, entry) == Relocated(a, entry) + Relocated(b, entry)
    decreases |b|
  {
    if b == [] {
      assert a + b == a;
    } else {
      assert (a + b)[..|a + b| - 1] == a + b[..|b| - 1];
      RelocatedConcat(a, b[..|b| - 1], entry);
    }
  }

  lemma NoHitBehind(list: SlotList, slot: Slot, other: Slot)
    requires list != [] && UniqueSlots(list) && (other == slot || !HasHit(list, other, other))
    ensures Hit(list[0], slot, other) ==> !HasHit(list[1..], slot, other)
    ensures Hit(list[0], slot, other) <==> list[0].slot == slot
    ensures other == slot || !HasHit(list[1..], other, other)
  {
    forall j | 0 <= j < |list[1..]|
      ensures Hit(list[0], slot, other) ==> !Hit(list[1..][j], slot, other)
      ensures other == slot || !Hit(list[1..][j], other, other)
    {
      assert list[1..][j] == list[j + 1];
      assert other == slot || !Hit(list[j + 1], other, other);
    }
    assert other == slot || !Hit(list[0], other, other);
  }

  lemma {:induction false} ReplacedIsRelocated(list: SlotList, entry: Entry, other: Slot)
    requires UniqueSlots(list) && (other == entry.slot || !HasHit(list, other, other))
    ensures Replaced(list, entry, other) == Relocated(list, entry)
    decreases |list|
  {
    if list != [] {
      NoHitBehind(list, entry.slot, other);
      ReplacedIsRelocated(list[1..], entry, other);
      RelocatedConcat([list[0]], list[1..], entry);
      assert list == [list[0]] + list[1..];
      assert Relocated([list[0]], entry) == [if list[0].slot == entry.slot then entry else list[0]];
    }
  }

  /** An entry found at the slot becomes the new one. */
  function Moved(found: Option<Entry>, entry: Entry): (r: Option<Entry>) {
    if found.Some? && found.value.slot == entry.slot then Some(entry) else found
  }

  lemma {:induction false} RelocatedLookup(list: SlotList, entry: Entry, ancestors: set<Slot>, roots: set<Slot>,
                                           maxRoot: Option<Slot>)
    ensures Lookup(Relocated(list, entry), ancestors, roots, maxRoot) ==
              Moved(Lookup(list, ancestors, roots, maxRoot), entry)
    decreases |list|
  {
    if list != [] {
      var n := |list| - 1;
      RelocatedLookup(list[..n], entry, ancestors, roots, maxRoot);
      assert Relocated(list, entry)[..|Relocated(list, entry)| - 1] == Relocated(list[..n], entry);
    }
  }

  /** A lookup finds the same slot as before; its version is the new one if it is the slot updated. */
  lemma RelocationSeen(list: SlotList, entry: Entry, other: Slot, ancestors: set<Slot>, roots: set<Slot>,
                       maxRoot: Option<Slot>)
    requires UniqueSlots(list) && Relocates(list, entry, other)
    ensures Lookup(Updated(list, entry, other), ancestors, roots, maxRoot) ==
              Moved(Lookup(list, ancestors, roots, maxRoot), entry)
  {
    var i :| 0 <= i < |list| && Hit(list[i], entry.slot, entry.slot);
    assert Hit(list[i], entry.slot, other);
    ReplacedIsRelocated(list, entry, other);
    RelocatedLookup(list, entry, ancestors, roots, maxRoot);
  }
}
