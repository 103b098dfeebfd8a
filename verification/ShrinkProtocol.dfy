/**
 * The map of slots to stores while slots are shrunk. A shrink puts the new
 * store beside the old one, and when it ends swaps it in and then drops the
 * second entry; readers look in three places without a lock.
 */
module ShrinkProtocol {
  import opened Common

  /** A store and its id; two stores may share an id. */
  datatype Store = Store(id: nat, storage: nat)

  /** A shrink of one slot; `swapped` between the two map updates of its end. */
  datatype Shrink = Shrink(oldStore: Store, newStore: Store, swapped: bool)

  datatype Storage = Storage(stores: map<Slot, Store>, inProgress: map<Slot, Store>, shrinks: map<Slot, Shrink>)

  datatype Step =
    | Insert(slot: Slot, store: Store)
    | Remove(slot: Slot, shrinkCanBeActive: bool)
    | StartShrink(slot: Slot, store: Store)
    | Swap(slot: Slot)
    | Finish(slot: Slot)

  /** The end of a shrink replaces a store with the id of the old one. */
  predicate ReplacesOld(s: Storage, slot: Slot)
    requires slot in s.shrinks
  {
    slot in s.stores && s.stores[slot].id == s.shrinks[slot].oldStore.id
  }

  /** What the assertions of a step ask for. */
  ghost predicate Allowed(s: Storage, step: Step) {
    match step
    case Insert(slot, _) => s.inProgress == map[] && slot !in s.stores
    case Remove(_, shrinkCanBeActive) => shrinkCanBeActive || s.inProgress == map[]
    case StartShrink(slot, _) => slot in s.stores && slot !in s.inProgress
    case Swap(slot) => slot in s.shrinks && !s.shrinks[slot].swapped && ReplacesOld(s, slot)
    case Finish(slot) => slot in s.shrinks && s.shrinks[slot].swapped
  }

  function Next(s: Storage, step: Step): (r: Storage) {
    match step
    case Insert(slot, store) => s.(stores := s.stores[slot := store])
    case Remove(slot, _) => s.(stores := s.stores - {slot})
    case StartShrink(slot, store) =>
      if slot !in s.stores then s else
      s.(inProgress := s.inProgress[slot := store],
         shrinks := s.shrinks[slot := Shrink(s.stores[slot], store, false)])
    case Swap(slot) =>
      if slot !in s.shrinks then s else
      s.(stores := s.stores[slot := s.shrinks[slot].newStore],
         shrinks := s.shrinks[slot := s.shrinks[slot].(swapped := true)])
    case Finish(slot) => s.(inProgress := s.inProgress - {slot}, shrinks := s.shrinks - {slot})
  }

  /**
   * Each shrink has its new store beside the map, and in the map the old one
   * or, once swapped, the new; unless the slot was removed meanwhile.
   */
  ghost predicate Inv(s: Storage) {
    && s.inProgress.Keys == s.shrinks.Keys
    && forall slot :: slot in s.shrinks ==> ShrinkInv(s, slot)
  }

  ghost predicate ShrinkInv(s: Storage, slot: Slot)
    requires slot in s.shrinks && s.inProgress.Keys == s.shrinks.Keys
  {
    var shrink := s.shrinks[slot];
    && s.inProgress[slot] == shrink.newStore
    && (slot in s.stores ==> s.stores[slot] == if shrink.swapped then shrink.newStore else shrink.oldStore)
  }

  lemma StepKeepsInv(s: Storage, step: Step)
    requires Inv(s) && Allowed(s, step)
    ensures Inv(Next(s, step))
  {
    var t := Next(s, step);
    assert t.inProgress.Keys == t.shrinks.Keys;
    forall slot | slot in t.shrinks ensures ShrinkInv(t, slot) {
      assert slot != step.slot ==> slot in s.shrinks && ShrinkInv(s, slot);
      assert slot == step.slot && slot in s.shrinks ==> ShrinkInv(s, slot);
    }
  }

  /** The assertions of the drop: there is an entry to remove, and the old store is replaced if any is. */
  lemma DropAssertionsHold(s: Storage, slot: Slot)
    requires Inv(s) && slot in s.shrinks
    ensures slot in s.inProgress
    ensures !s.shrinks[slot].swapped ==> (ReplacesOld(s, slot) <==> slot in s.stores)
  {
    assert ShrinkInv(s, slot);
  }

  // ----- runs -----

  ghost predicate StepAt(states: seq<Storage>, steps: seq<Step>, i: nat)
    requires i < |steps| < |states|
  {
    Allowed(states[i], steps[i]) && states[i + 1] == Next(states[i], steps[i])
  }

  ghost predicate IsRun(states: seq<Storage>, steps: seq<Step>) {
    && |states| == |steps| + 1
    && Inv(states[0])
    && forall i :: 0 <= i < |steps| ==> StepAt(states, steps, i)
  }

  lemma {:induction false} RunKeepsInv(states: seq<Storage>, steps: seq<Step>, i: nat)
    requires IsRun(states, steps) && i < |states|
    ensures Inv(states[i])
  {
    if i > 0 {
      RunKeepsInv(states, steps, i - 1);
      assert StepAt(states, steps, i - 1);
      StepKeepsInv(states[i - 1], steps[i - 1]);
    }
  }

  /** A store stays in the map, if perhaps not the same one, until its slot is removed. */
  lemma {:induction false} StaysUntilRemoved(states: seq<Storage>, steps: seq<Step>, a: nat, b: nat, slot: Slot)
    requires IsRun(states, steps) && a <= b <= |steps| && slot in states[a].stores
    requires forall i :: a <= i < b && steps[i].slot == slot ==> !steps[i].Remove?
    ensures slot in states[b].stores
    decreases b
  {
    if a < b {
      StaysUntilRemoved(states, steps, a, b - 1, slot);
      assert StepAt(states, steps, b - 1);
    }
  }

  /** A shrink whose slot is not removed before its end can be ended. */
  lemma DropSucceeds(states: seq<Storage>, steps: seq<Step>, a: nat, b: nat, slot: Slot, store: Store)
    requires IsRun(states, steps) && a < b <= |steps| && steps[a] == StartShrink(slot, store)
    requires forall i :: a < i < b && steps[i].slot == slot ==> !steps[i].Remove?
    requires slot in states[b].shrinks && !states[b].shrinks[slot].swapped
    ensures Allowed(states[b], Swap(slot))
  {
    assert StepAt(states, steps, a);
    StaysUntilRemoved(states, steps, a + 1, b, slot);
    RunKeepsInv(states, steps, b);
    DropAssertionsHold(states[b], slot);
  }

  // ----- readers -----

  function LookupInMap(m: map<Slot, Store>, slot: Slot, id: nat): (r: Option<Store>) {
    if slot in m && m[slot].id == id then Some(m[slot]) else None
  }

  /** The three lookups of a reader, each on the state that it meets. */
  function GetEntry(first: Storage, second: Storage, third: Storage, slot: Slot, id: nat): (r: Option<Store>) {
    var a := LookupInMap(first.stores, slot, id);
    if a.Some? then a else
    var b := LookupInMap(second.inProgress, slot, id);
    if b.Some? then b else LookupInMap(third.stores, slot, id)
  }

  /** No reader gets a store with another id. */
  lemma NeverAnotherId(first: Storage, second: Storage, third: Storage, slot: Slot, id: nat)
    ensures GetEntry(first, second, third, slot, id).Some? ==> GetEntry(first, second, third, slot, id).value.id == id
  {
  }

  /** How often a step was taken between two states. */
  function Times(steps: seq<Step>, a: nat, b: nat, step: Step): (r: nat)
    requires a <= b <= |steps|
  {
    if a == b then 0 else Times(steps, a, b - 1, step) + if steps[b - 1] == step then 1 else 0
  }

  lemma {:induction false} TimesGrow(steps: seq<Step>, a: nat, b: nat, c: nat, step: Step)
    requires a <= b <= c <= |steps|
    ensures Times(steps, a, b, step) <= Times(steps, a, c, step)
  {
    if b < c { TimesGrow(steps, a, b, c - 1, step); }
  }

  /** Between two states the slot is not removed, and no other store takes the id. */
  ghost predicate Undisturbed(steps: seq<Step>, a: nat, b: nat, slot: Slot, id: nat)
    requires a <= b <= |steps|
  {
    forall i :: a <= i < b && steps[i].slot == slot ==>
      && !steps[i].Remove?
      && (steps[i].StartShrink? || steps[i].Insert? ==> steps[i].store.id != id)
  }

  /** Where a store is that was new in a shrink, by the drops of the slot since then. */
  ghost predicate Tracked(s: Storage, slot: Slot, newStore: Store, swaps: nat, finishes: nat) {
    && slot in s.stores
    && (finishes == 0 ==> swaps <= 1 && slot in s.shrinks && s.shrinks[slot].newStore == newStore
                          && (s.shrinks[slot].swapped <==> swaps == 1))
    && (finishes > 0 ==> swaps > 0 && (slot in s.inProgress ==> s.inProgress[slot].id != newStore.id))
    && (swaps == 0 ==> s.stores[slot].id != newStore.id)
    && (swaps == 1 ==> s.stores[slot] == newStore)
    && (swaps > 1 ==> s.stores[slot].id != newStore.id)
  }

  lemma TrackedStep(s: Storage, step: Step, slot: Slot, newStore: Store, swaps: nat, finishes: nat)
    requires Inv(s) && Allowed(s, step) && Tracked(s, slot, newStore, swaps, finishes)
    requires step.slot == slot ==>
               !step.Remove? && (step.StartShrink? || step.Insert? ==> step.store.id != newStore.id)
    ensures Tracked(Next(s, step), slot, newStore, swaps + (if step == Swap(slot) then 1 else 0),
                    finishes + (if step == Finish(slot) then 1 else 0))
  {
    if slot in s.shrinks { assert ShrinkInv(s, slot); }
  }

  lemma {:induction false} TrackedRun(states: seq<Storage>, steps: seq<Step>, a: nat, b: nat, slot: Slot,
                                      newStore: Store)
    requires IsRun(states, steps) && a <= b <= |steps| && Undisturbed(steps, a, b, slot, newStore.id)
    requires Tracked(states[a], slot, newStore, 0, 0)
    ensures Tracked(states[b], slot, newStore, Times(steps, a, b, Swap(slot)), Times(steps, a, b, Finish(slot)))
    decreases b
  {
    if a < b {
      TrackedRun(states, steps, a, b - 1, slot, newStore);
      RunKeepsInv(states, steps, b - 1);
      assert StepAt(states, steps, b - 1);
      TrackedStep(states[b - 1], steps[b - 1], slot, newStore, Times(steps, a, b - 1, Swap(slot)),
                  Times(steps, a, b - 1, Finish(slot)));
    }
  }

  /** Where the new store of a shrink is whose slot was removed. */
  ghost predicate Orphaned(s: Storage, slot: Slot, newStore: Store, finishes: nat) {
    && (finishes == 0 ==> slot !in s.stores && slot in s.shrinks && s.shrinks[slot].newStore == newStore)
    && (finishes > 0 ==> slot in s.inProgress ==> s.inProgress[slot].id != newStore.id)
    && (slot in s.stores ==> s.stores[slot].id != newStore.id)
  }

  lemma OrphanedStep(s: Storage, step: Step, slot: Slot, newStore: Store, finishes: nat)
    requires Inv(s) && Allowed(s, step) && Orphaned(s, slot, newStore, finishes)
    requires step.slot == slot ==>
               !step.Remove? && (step.StartShrink? || step.Insert? ==> step.store.id != newStore.id)
    ensures Orphaned(Next(s, step), slot, newStore, finishes + (if step == Finish(slot) then 1 else 0))
  {
    if slot in s.shrinks { assert ShrinkInv(s, slot); }
  }

  lemma {:induction false} OrphanedRun(states: seq<Storage>, steps: seq<Step>, a: nat, b: nat, slot: Slot,
                                       newStore: Store)
    requires IsRun(states, steps) && a <= b <= |steps| && Undisturbed(steps, a, b, slot, newStore.id)
    requires Orphaned(states[a], slot, newStore, 0)
    ensures Orphaned(states[b], slot, newStore, Times(steps, a, b, Finish(slot)))
    decreases b
  {
    if a < b {
      OrphanedRun(states, steps, a, b - 1, slot, newStore);
      RunKeepsInv(states, steps, b - 1);
      assert StepAt(states, steps, b - 1);
      OrphanedStep(states[b - 1], steps[b - 1], slot, newStore, Times(steps, a, b - 1, Finish(slot)));
    }
  }

  /** The store is the one in the map, or the new one of a shrink. */
  ghost predicate IsLive(s: Storage, slot: Slot, store: Store) {
    (slot in s.stores && s.stores[slot] == store) || (slot in s.inProgress && s.inProgress[slot] == store)
  }

  ghost predicate InMap(s: Storage, slot: Slot, id: nat) {
    slot in s.stores && s.stores[slot].id == id
  }

  lemma TrackedFindsExactly(states: seq<Storage>, steps: seq<Step>, a: nat, b: nat, c: nat, slot: Slot, store: Store)
    requires IsRun(states, steps) && a <= b <= c <= |steps| && Undisturbed(steps, a, c, slot, store.id)
    requires Tracked(states[a], slot, store, 0, 0)
    ensures GetEntry(states[a], states[b], states[c], slot, store.id) in {None, Some(store)}
    ensures GetEntry(states[a], states[b], states[c], slot, store.id).Some? <==>
              Times(steps, a, b, Finish(slot)) == 0 || Times(steps, a, c, Swap(slot)) <= 1
  {
    TrackedRun(states, steps, a, b, slot, store);
    TrackedRun(states, steps, a, c, slot, store);
    TimesGrow(steps, a, b, c, Swap(slot));
    RunKeepsInv(states, steps, b);
    if Times(steps, a, b, Finish(slot)) == 0 { assert ShrinkInv(states[b], slot); }
  }

  lemma OrphanFoundExactly(states: seq<Storage>, steps: seq<Step>, a: nat, b: nat, c: nat, slot: Slot, store: Store)
    requires IsRun(states, steps) && a <= b <= c <= |steps| && Undisturbed(steps, a, c, slot, store.id)
    requires Orphaned(states[a], slot, store, 0)
    ensures GetEntry(states[a], states[b], states[c], slot, store.id) in {None, Some(store)}
    ensures GetEntry(states[a], states[b], states[c], slot, store.id).Some? <==>
              Times(steps, a, b, Finish(slot)) == 0
  {
    OrphanedRun(states, steps, a, b, slot, store);
    OrphanedRun(states, steps, a, c, slot, store);
    RunKeepsInv(states, steps, b);
    if Times(steps, a, b, Finish(slot)) == 0 { assert ShrinkInv(states[b], slot); }
  }

  /**
   * A reader asks for a live store and looks at the states a, b and c of a
   * run. It misses the store exactly if the store was not in the map at first,
   * its shrink was over before the second look, and either a further shrink
   * swapped it out again before the third or the slot had been removed.
   */
  lemma ReaderFindsExactly(states: seq<Storage>, steps: seq<Step>, a: nat, b: nat, c: nat, slot: Slot, store: Store)
    requires IsRun(states, steps) && a <= b <= c <= |steps|
    requires IsLive(states[a], slot, store) && Undisturbed(steps, a, c, slot, store.id)
    ensures GetEntry(states[a], states[b], states[c], slot, store.id).Some? <==>
              || InMap(states[a], slot, store.id)
              || Times(steps, a, b, Finish(slot)) == 0
              || (slot in states[a].stores && Times(steps, a, c, Swap(slot)) <= 1)
    ensures InMap(states[a], slot, store.id) ||
            GetEntry(states[a], states[b], states[c], slot, store.id) in {None, Some(store)}
  {
    RunKeepsInv(states, steps, a);
    if !InMap(states[a], slot, store.id) {
      assert ShrinkInv(states[a], slot);
      if slot in states[a].stores {
        TrackedFindsExactly(states, steps, a, b, c, slot, store);
      } else {
        OrphanFoundExactly(states, steps, a, b, c, slot, store);
      }
    }
  }

  /** A reader overlapped by at most one drop of a slot that is not removed finds a live store. */
  lemma OneDropIsSafe(states: seq<Storage>, steps: seq<Step>, a: nat, b: nat, c: nat, slot: Slot, store: Store)
    requires IsRun(states, steps) && a <= b <= c <= |steps| && slot in states[a].stores
    requires IsLive(states[a], slot, store) && Undisturbed(steps, a, c, slot, store.id)
    requires Times(steps, a, c, Swap(slot)) <= 1
    ensures GetEntry(states[a], states[b], states[c], slot, store.id).Some?
  {
    ReaderFindsExactly(states, steps, a, b, c, slot, store);
  }

  /** Two shrinks that end during the read: the first one's store is missed. */
  function MissingSteps(slot: Slot, next: Store): (r: seq<Step>) {
    [Swap(slot), Finish(slot), StartShrink(slot, next), Swap(slot)]
  }

  function StatesFrom(s: Storage, steps: seq<Step>): (states: seq<Storage>)
    ensures |states| == |steps| + 1 && states[0] == s
    decreases |steps|
  {
    if steps == [] then [s] else [s] + StatesFrom(Next(s, steps[0]), steps[1..])
  }

  lemma TwoDropsMiss(slot: Slot, first: Store, second: Store, third: Store)
    requires first.id != second.id && third.id != second.id
    ensures var s := Storage(map[slot := first], map[slot := second], map[slot := Shrink(first, second, false)]);
            var steps := MissingSteps(slot, third);
            var states := StatesFrom(s, steps);
            && IsRun(states, steps) && IsLive(s, slot, second) && Undisturbed(steps, 0, 4, slot, second.id)
            && GetEntry(states[0], states[2], states[4], slot, second.id).None?
  {
    var s0 := Storage(map[slot := first], map[slot := second], map[slot := Shrink(first, second, false)]);
    var steps := MissingSteps(slot, third);
    var s1 := Next(s0, steps[0]);
    var s2 := Next(s1, steps[1]);
    var s3 := Next(s2, steps[2]);
    var s4 := Next(s3, steps[3]);
    var states := StatesFrom(s0, steps);
    FourStates(s0, steps);
    assert Inv(s0) by { assert ShrinkInv(s0, slot); }
    assert s2.inProgress == map[] && s2.shrinks == map[];
    assert StepAt(states, steps, 0) && StepAt(states, steps, 1) && StepAt(states, steps, 2) && StepAt(states, steps, 3);
    assert s4.stores[slot] == third;
  }

  lemma FourStates(s: Storage, steps: seq<Step>)
    requires |steps| == 4
    ensures var s1 := Next(s, steps[0]); var s2 := Next(s1, steps[1]); var s3 := Next(s2, steps[2]);
            StatesFrom(s, steps) == [s, s1, s2, s3, Next(s3, steps[3])]
  {
    var a, b, c := steps[1..], steps[2..], steps[3..];
    assert a[1..] == b && b[1..] == c && c[1..] == [];
    var s1 := Next(s, steps[0]);
    var s2 := Next(s1, steps[1]);
    var s3 := Next(s2, steps[2]);
    var s4 := Next(s3, steps[3]);
    assert StatesFrom(s3, c) == [s3, s4];
    assert StatesFrom(s2, b) == [s2, s3, s4];
    assert StatesFrom(s1, a) == [s1, s2, s3, s4];
  }

  // ----- the two maps -----

  class AccountStorage {
    var stores: map<Slot, Store>
    var shrinkInProgressMap: map<Slot, Store>
    ghost var shrinks: map<Slot, Shrink>

    ghost function State(): (r: Storage)
      reads this
    {
      Storage(stores, shrinkInProgressMap, shrinks)
    }

    ghost predicate Valid()
      reads this
    {
      Inv(State())
    }

    constructor ()
      ensures Valid() && State() == Storage(map[], map[], map[])
    {
      stores, shrinkInProgressMap, shrinks := map[], map[], map[];
    }

    /** All three lookups while nothing else happens. */
    method GetAccountStorageEntry(slot: Slot, id: nat) returns (r: Option<Store>)
      requires Valid()
      ensures r == GetEntry(State(), State(), State(), slot, id)
      ensures r.Some? <==> exists store :: IsLive(State(), slot, store) && store.id == id
    {
      r := LookupInMap(stores, slot, id);
      if r.None? { r := LookupInMap(shrinkInProgressMap, slot, id); }
      if r.None? { r := LookupInMap(stores, slot, id); }
      if r.Some? { assert IsLive(State(), slot, r.value); }
    }

    method InsertStore(slot: Slot, store: Store)
      requires Valid() && Allowed(State(), Insert(slot, store))
      modifies this
      ensures Valid() && State() == Next(old(State()), Insert(slot, store))
      ensures stores == old(stores)[slot := store] && shrinkInProgressMap == old(shrinkInProgressMap)
    {
      StepKeepsInv(State(), Insert(slot, store));
      stores := stores[slot := store];
    }

    method RemoveSlot(slot: Slot, shrinkCanBeActive: bool) returns (r: Option<Store>)
      requires Valid() && Allowed(State(), Remove(slot, shrinkCanBeActive))
      modifies this
      ensures Valid() && State() == Next(old(State()), Remove(slot, shrinkCanBeActive))
      ensures stores == old(stores) - {slot} && shrinkInProgressMap == old(shrinkInProgressMap)
      ensures r == if slot in old(stores) then Some(old(stores)[slot]) else None
    {
      StepKeepsInv(State(), Remove(slot, shrinkCanBeActive));
      r := if slot in stores then Some(stores[slot]) else None;
      stores := stores - {slot};
    }

    /** Returns the store that the new one will replace. */
    method ShrinkingInProgress(slot: Slot, newStore: Store) returns (oldStore: Store)
      requires Valid() && Allowed(State(), StartShrink(slot, newStore))
      modifies this
      ensures Valid() && State() == Next(old(State()), StartShrink(slot, newStore))
      ensures stores == old(stores) && shrinkInProgressMap == old(shrinkInProgressMap)[slot := newStore]
      ensures oldStore == old(stores)[slot] && IsLive(State(), slot, oldStore) && IsLive(State(), slot, newStore)
    {
      StepKeepsInv(State(), StartShrink(slot, newStore));
      oldStore := stores[slot];
      shrinkInProgressMap := shrinkInProgressMap[slot := newStore];
      shrinks := shrinks[slot := Shrink(oldStore, newStore, false)];
    }

    /** The end of a shrink: the new store takes the place of the old one, then leaves the second map. */
    method Drop(slot: Slot, oldStore: Store, newStore: Store)
      requires Valid() && Allowed(State(), Swap(slot)) && shrinks[slot] == Shrink(oldStore, newStore, false)
      modifies this
      ensures Valid() && State() == Next(Next(old(State()), Swap(slot)), Finish(slot))
      ensures stores == old(stores)[slot := newStore] && shrinkInProgressMap == old(shrinkInProgressMap) - {slot}
    {
      StepKeepsInv(State(), Swap(slot));
      stores := stores[slot := newStore];
      shrinks := shrinks[slot := Shrink(oldStore, newStore, true)];
      StepKeepsInv(State(), Finish(slot));
      DropAssertionsHold(State(), slot);
      assert slot in shrinkInProgressMap;
      shrinkInProgressMap := shrinkInProgressMap - {slot};
      shrinks := shrinks - {slot};
    }
  }
}
