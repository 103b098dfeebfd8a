/** The scan protocol is safe: on every run, every scan that returns results saw one fixed view.

    A step may still move the version of a slot to another place; then the slot that a scan sees
    stays, and the version is the one that was moved. */
module ScanSafety {
  import opened Common
  import opened AccountInfo
  import opened SlotList
  import opened SlotListUpdate
  import opened ScanProtocol

  // ----- the pins -----

  lemma PinnedByInsert(scans: map<ScanId, Scan>, id: ScanId, scan: Scan, root: Slot)
    requires id !in scans
    ensures PinnedBy(scans[id := scan], root) == PinnedBy(scans, root) + if scan.root == root then {id} else {}
  {
  }

  lemma PinnedByRemove(scans: map<ScanId, Scan>, id: ScanId, root: Slot)
    requires id in scans
    ensures PinnedBy(scans - {id}, root) == PinnedBy(scans, root) - {id}
    ensures id in PinnedBy(scans, root) <==> scans[id].root == root
  {
  }

  lemma StartKeepsPins(s: Db, id: ScanId, scan: Scan)
    requires PinsCounted(s) && id !in s.scans
    ensures PinsCounted(s.(ongoing := Pin(s.ongoing, scan.root), scans := s.scans[id := scan]))
  {
    var s' := s.(ongoing := Pin(s.ongoing, scan.root), scans := s.scans[id := scan]);
    forall r | r in s'.ongoing ensures s'.ongoing[r] == |PinnedBy(s'.scans, r)| > 0 {
      PinnedByInsert(s.scans, id, scan, r);
      if r == scan.root && r !in s.ongoing {
        assert PinnedBy(s.scans, r) == {};
      }
    }
  }

  /** The count of a scan's root is there when the scan ends. */
  lemma EndKeepsPins(s: Db, id: ScanId)
    requires PinsCounted(s) && id in s.scans
    ensures var ongoing := Unpin(s.ongoing, s.scans[id].root);
            ongoing.Some? && PinsCounted(s.(ongoing := ongoing.value, scans := s.scans - {id}))
  {
    var root := s.scans[id].root;
    var ongoing := Unpin(s.ongoing, root).value;
    var s' := s.(ongoing := ongoing, scans := s.scans - {id});
    PinnedByRemove(s.scans, id, root);
    assert |PinnedBy(s.scans, root) - {id}| == s.ongoing[root] - 1;
    forall r | r in s'.ongoing ensures s'.ongoing[r] == |PinnedBy(s'.scans, r)| > 0 {
      PinnedByRemove(s.scans, id, r);
      if r != root { assert PinnedBy(s.scans, r) - {id} == PinnedBy(s.scans, r); }
    }
    forall j | j in s'.scans ensures s'.scans[j].root in s'.ongoing {
      assert s.scans[j].root == root ==> j in PinnedBy(s.scans, root) - {id};
    }
  }

  lemma PinsKept(s: Db, step: Step)
    requires Inv(s) && Allowed(s, step)
    ensures Next(s, step).Some? && PinsCounted(Next(s, step).value)
  {
    match step
    case StartScan(id, ancestors, bank) =>
      StartKeepsPins(s, id, Scan(s.maxRoot, EffectiveAncestors(ancestors, s.maxRoot), bank));
    case EndScan(id) => EndKeepsPins(s, id);
    case _ =>
  }

  // ----- settled slots -----

  /** Every entry after the step was there before, or is at another slot. */
  lemma EntriesKept(s: Db, step: Step, key: Pubkey, e: Entry, slot: Slot)
    requires Allowed(s, step) && Next(s, step).Some?
    requires step.Upsert? ==> step.entry.slot != slot
    requires key in Next(s, step).value.index && e in Next(s, step).value.index[key] && e.slot == slot
    ensures key in s.index && e in s.index[key]
  {
    if step.Upsert? && step.key == key {
      UpdatedMembers(ListOf(s, key), step.entry, step.other, e);
    } else if step.CleanKey? && step.key == key && key in s.index {
      var newest := NewestRoot(s.index[key], s.roots, s.cleans[step.clean]);
      FilterMembers(s.index[key], (x: Entry) => Keeps(EffectiveBound(s.cleans[step.clean], s.maxRoot), newest, x), e);
    } else if step.PurgeUnrooted? && step.key == key && key in s.index {
      FilterMembers(s.index[key], (x: Entry) => x.slot !in step.slots, e);
    }
  }

  /** A slot whose version is replaced has entries, so it is settled only as a root. */
  lemma RelocatedIsRoot(s: Db, step: Step)
    requires step.Upsert? && Relocates(ListOf(s, step.key), step.entry, step.other)
    requires Settled(s, step.entry.slot)
    ensures step.entry.slot in s.roots
  {
    var list, slot := ListOf(s, step.key), step.entry.slot;
    var i :| 0 <= i < |list| && Hit(list[i], slot, slot);
    assert step.key in s.index && list[i] in s.index[step.key];
  }

  lemma SettledKept(s: Db, step: Step, slot: Slot)
    requires Allowed(s, step) && Next(s, step).Some? && Settled(s, slot)
    requires step.Upsert? && step.entry.slot == slot ==> Relocates(ListOf(s, step.key), step.entry, step.other)
    ensures Settled(Next(s, step).value, slot)
  {
    var s' := Next(s, step).value;
    if step.Upsert? && step.entry.slot == slot {
      RelocatedIsRoot(s, step);
    } else if slot !in s'.roots {
      assert Unreferenced(s, slot);
      forall key, e | key in s'.index && e in s'.index[key] ensures e.slot != slot {
        if e.slot == slot {
          EntriesKept(s, step, key, e, slot);
        }
      }
    }
  }

  lemma ScanStaysSettled(s: Db, step: Step, id: ScanId)
    requires Inv(s) && Allowed(s, step) && Next(s, step).Some?
    requires id in s.scans
    ensures ScanSettled(Next(s, step).value, s.scans[id])
  {
    var scan := s.scans[id];
    var s' := Next(s, step).value;
    assert ScanSettled(s, scan);
    SettledKept(s, step, scan.root);
    forall a | a in scan.ancestors && a < scan.root ensures Settled(s', a) {
      SettledKept(s, step, a);
    }
  }

  lemma ScansStaySettled(s: Db, step: Step)
    requires Inv(s) && Allowed(s, step) && Next(s, step).Some?
    ensures ScansSettled(Next(s, step).value)
  {
    var s' := Next(s, step).value;
    forall id | id in s'.scans ensures ScanSettled(s', s'.scans[id]) {
      if id in s.scans {
        ScanStaysSettled(s, step, id);
      } else {
        NewScanSettled(s, step);
      }
    }
  }

  lemma NewScanSettled(s: Db, step: Step)
    requires Allowed(s, step) && step.StartScan? && step.bank !in s.removedBanks
    ensures var s' := Next(s, step).value; ScanSettled(s', s'.scans[step.scan])
  {
    var s' := Next(s, step).value;
    var scan := s'.scans[step.scan];
    assert s'.index == s.index && s'.roots == s.roots;
    assert Settled(s', scan.root);
    forall a | a in scan.ancestors && a < scan.root ensures Settled(s', a) {
      assert Settled(s, a);
    }
  }

  // ----- the bounds of cleans -----

  lemma CleansStayBounded(s: Db, step: Step)
    requires Inv(s) && Allowed(s, step) && Next(s, step).Some?
    ensures CleansBounded(Next(s, step).value)
  {
    var s' := Next(s, step).value;
    if step.StartClean? {
      var m := MinOngoingScanRoot(s.ongoing);
      assert m.Some? ==> PinnedBy(s.scans, m.value) != {};
      if m.Some? {
        var id :| id in PinnedBy(s.scans, m.value);
        assert ScanSettled(s, s.scans[id]);
      }
    }
  }

  lemma ListsStayUnique(s: Db, step: Step)
    requires ListsUnique(s) && Next(s, step).Some?
    ensures ListsUnique(Next(s, step).value)
  {
    match step
    case Upsert(key, entry, other) => UpdatedUnique(ListOf(s, key), entry, other);
    case CleanKey(id, key) =>
      if key in s.index {
        var newest := NewestRoot(s.index[key], s.roots, s.cleans[id]);
        FilterUnique(s.index[key], (e: Entry) => Keeps(EffectiveBound(s.cleans[id], s.maxRoot), newest, e));
      }
    case PurgeUnrooted(key, slots) =>
      if key in s.index { FilterUnique(s.index[key], (e: Entry) => e.slot !in slots); }
    case _ =>
  }

  /** One step of the protocol keeps the invariant and never fails. */
  lemma StepKeepsInv(s: Db, step: Step)
    requires Inv(s) && Allowed(s, step)
    ensures Next(s, step).Some? && Inv(Next(s, step).value)
  {
    PinsKept(s, step);
    ScansStaySettled(s, step);
    CleansStayBounded(s, step);
    ListsStayUnique(s, step);
  }

  // ----- views -----

  lemma RootsViewKept(s: Db, s': Db, scan: Scan, key: Pubkey)
    requires s'.index == s.index
    requires forall slot :: slot in s.roots && slot !in s'.roots ==> Unreferenced(s, slot)
    requires forall slot :: slot in s'.roots && slot !in s.roots && slot <= scan.root ==> Unreferenced(s, slot)
    ensures View(s', scan, key) == View(s, scan, key)
  {
    var list := ListOf(s, key);
    forall e | e in list
      ensures Visible(e.slot, scan.ancestors, s.roots, Some(scan.root)) <==>
                Visible(e.slot, scan.ancestors, s'.roots, Some(scan.root))
    {
      assert Unreferenced(s, e.slot) ==> false;
    }
    LookupAgrees(list, scan.ancestors, s.roots, s'.roots, Some(scan.root));
  }

  /** The step moves the version of the key that was found. */
  predicate Moves(step: Step, key: Pubkey, found: Option<Entry>) {
    step.Upsert? && step.key == key && found.Some? && found.value.slot == step.entry.slot
  }

  /** What is found after the step. */
  function AfterMove(step: Step, key: Pubkey, found: Option<Entry>): (r: Option<Entry>) {
    if Moves(step, key, found) then Some(step.entry) else found
  }

  lemma UpsertViewKept(s: Db, step: Step, id: ScanId, key: Pubkey)
    requires Allowed(s, step) && step.Upsert? && ListsUnique(s)
    requires id in s.scans
    ensures View(Next(s, step).value, s.scans[id], key) == AfterMove(step, key, View(s, s.scans[id], key))
  {
    var scan, list := s.scans[id], ListOf(s, step.key);
    if Relocates(list, step.entry, step.other) {
      RelocationSeen(list, step.entry, step.other, scan.ancestors, s.roots, Some(scan.root));
    } else {
      UpdateUnseen(list, step.entry, step.other, scan.ancestors, s.roots, Some(scan.root));
    }
  }

  lemma CleanViewKept(s: Db, step: Step, id: ScanId, key: Pubkey)
    requires Inv(s) && Allowed(s, step) && step.CleanKey?
    requires id in s.scans
    ensures View(Next(s, step).value, s.scans[id], key) == View(s, s.scans[id], key)
  {
    var scan := s.scans[id];
    if step.key == key && key in s.index {
      var list := s.index[key];
      var bound := s.cleans[step.clean];
      assert ScanSettled(s, scan);
      forall e | e in list && e.slot in scan.ancestors && e.slot < EffectiveBound(bound, s.maxRoot)
        ensures e.slot in s.roots
      {
        assert Settled(s, e.slot);
      }
      PurgeKeepsLookup(list, scan.ancestors, s.roots, Some(scan.root), s.maxRoot, bound);
    }
  }

  lemma PurgeViewKept(s: Db, step: Step, id: ScanId, key: Pubkey)
    requires Allowed(s, step) && step.PurgeUnrooted?
    requires ReturnsOk(s, id)
    ensures View(Next(s, step).value, s.scans[id], key) == View(s, s.scans[id], key)
  {
    var scan := s.scans[id];
    if step.key == key && key in s.index {
      var found := View(s, scan, key);
      assert found.Some? ==> found.value.slot !in step.slots;
      FilterLookup(s.index[key], (e: Entry) => e.slot !in step.slots, scan.ancestors, s.roots, Some(scan.root));
    }
  }

  lemma StepKeepsScan(s: Db, step: Step, id: ScanId)
    requires Allowed(s, step) && Next(s, step).Some?
    requires id in s.scans && ReturnsOk(Next(s, step).value, id)
    ensures ReturnsOk(s, id) && Next(s, step).value.scans[id] == s.scans[id]
  {
  }

  lemma RootStepViewKept(s: Db, step: Step, id: ScanId, key: Pubkey)
    requires Inv(s) && Allowed(s, step) && Next(s, step).Some? && (step.AddRoot? || step.CleanDeadSlot?)
    requires id in s.scans
    ensures View(Next(s, step).value, s.scans[id], key) == View(s, s.scans[id], key)
  {
    assert ScanSettled(s, s.scans[id]);
    RootsViewKept(s, Next(s, step).value, s.scans[id], key);
  }

  predicate ChangesIndexOrRoots(step: Step) {
    step.AddRoot? || step.CleanDeadSlot? || step.Upsert? || step.CleanKey? || step.PurgeUnrooted?
  }

  lemma OtherViewKept(s: Db, step: Step, scan: Scan, key: Pubkey)
    requires !ChangesIndexOrRoots(step) && Next(s, step).Some?
    ensures View(Next(s, step).value, scan, key) == View(s, scan, key)
  {
    var s' := Next(s, step).value;
    assert s'.index == s.index && s'.roots == s.roots;
  }

  /** One step does not change what an active scan sees, as long as its bank is not removed, except
      that it may move the version found. */
  lemma StepKeepsView(s: Db, step: Step, id: ScanId, key: Pubkey)
    requires Inv(s) && Allowed(s, step) && Next(s, step).Some?
    requires id in s.scans && ReturnsOk(Next(s, step).value, id)
    ensures ReturnsOk(s, id)
    ensures Next(s, step).value.scans[id] == s.scans[id]
    ensures View(Next(s, step).value, s.scans[id], key) == AfterMove(step, key, View(s, s.scans[id], key))
  {
    StepKeepsScan(s, step, id);
    if step.AddRoot? || step.CleanDeadSlot? {
      RootStepViewKept(s, step, id, key);
    } else if step.Upsert? {
      UpsertViewKept(s, step, id, key);
    } else if step.CleanKey? {
      CleanViewKept(s, step, id, key);
    } else if step.PurgeUnrooted? {
      PurgeViewKept(s, step, id, key);
    } else {
      OtherViewKept(s, step, s.scans[id], key);
    }
  }

  // ----- what a scan sees from its start on -----

  /** The scan of a bank that descends from the pinned root sees of every key an entry at or above each
      entry that the bank's ancestors have. */
  lemma ScanSeesItsFork(s: Db, id: ScanId, ancestors: set<Slot>, bank: BankId, key: Pubkey, i: nat)
    requires bank !in s.removedBanks && s.maxRoot in ancestors
    requires i < |ListOf(s, key)| && ListOf(s, key)[i].slot in ancestors
    ensures var s' := Next(s, StartScan(id, ancestors, bank)).value;
            && id in s'.scans && s'.scans[id].root == s.maxRoot && s'.scans[id].bank == bank
            && View(s', s'.scans[id], key).Some?
            && ListOf(s, key)[i].slot <= View(s', s'.scans[id], key).value.slot
  {
    LookupSees(ListOf(s, key), ancestors, s.roots, Some(s.maxRoot), i);
  }

  /** What it sees belongs to its ancestors or to the roots up to the pinned one. */
  lemma ScanSeesNoOtherFork(s: Db, id: ScanId, ancestors: set<Slot>, bank: BankId, key: Pubkey)
    requires bank !in s.removedBanks
    ensures var s' := Next(s, StartScan(id, ancestors, bank)).value;
            && id in s'.scans
            && var found := View(s', s'.scans[id], key);
               found.Some? ==> found.value.slot in ancestors
                               || (found.value.slot in s.roots && found.value.slot <= s.maxRoot)
  {
    var list := ListOf(s, key);
    if list != [] { LookupSees(list, EffectiveAncestors(ancestors, s.maxRoot), s.roots, Some(s.maxRoot), 0); }
  }

  /** The scan of a bank of another fork sees roots only, and of these the highest. */
  lemma ScanOfStaleFork(s: Db, id: ScanId, ancestors: set<Slot>, bank: BankId, key: Pubkey)
    requires bank !in s.removedBanks && s.maxRoot !in ancestors
    ensures var s' := Next(s, StartScan(id, ancestors, bank)).value;
            && id in s'.scans
            && var found := View(s', s'.scans[id], key);
               && (found.Some? ==> found.value.slot in s.roots && found.value.slot <= s.maxRoot)
               && forall e :: e in ListOf(s, key) && e.slot in s.roots && e.slot <= s.maxRoot ==>
                    found.Some? && e.slot <= found.value.slot
  {
    var list := ListOf(s, key);
    if list != [] { LookupSees(list, {}, s.roots, Some(s.maxRoot), 0); }
    forall e | e in list && e.slot in s.roots && e.slot <= s.maxRoot
      ensures Lookup(list, {}, s.roots, Some(s.maxRoot)).Some?
      ensures e.slot <= Lookup(list, {}, s.roots, Some(s.maxRoot)).value.slot
    {
      var i :| 0 <= i < |list| && list[i] == e;
      LookupSees(list, {}, s.roots, Some(s.maxRoot), i);
    }
  }

  /** No scan of a removed bank starts, and none that runs returns its results. */
  lemma RemovedBanksAreRefused(s: Db, banks: set<BankId>, id: ScanId, ancestors: set<Slot>, bank: BankId)
    requires bank in banks
    ensures var s' := Next(s, MarkBanksRemoved(banks)).value;
            && Next(s', StartScan(id, ancestors, bank)) == Some(s')
            && (id in s.scans && s.scans[id].bank == bank ==> !ReturnsOk(s', id))
            && s'.removedBanks == s.removedBanks + banks
  {
  }

  /** Cleans get their bound when they start and are forgotten when they end, as scans and removed banks are. */
  lemma StartsAndEnds(s: Db, clean: CleanId, proposed: Option<Slot>, scan: ScanId, bank: BankId, other: BankId)
    ensures var s' := Next(s, StartClean(clean, proposed)).value;
            s' == s.(cleans := s.cleans[clean := MaxCleanRoot(s.ongoing, proposed)])
    ensures clean !in Next(s, EndClean(clean)).value.cleans
    ensures Next(s, EndScan(scan)).Some? ==> scan !in Next(s, EndScan(scan)).value.scans
    ensures other in Next(s, ForgetBank(bank)).value.removedBanks <==> other in s.removedBanks && other != bank
  {
  }

  /** A dead slot is no root any more; the other roots stay, and so does the highest one seen. */
  lemma DeadSlotIsNoRoot(s: Db, slot: Slot, other: Slot)
    ensures var s' := Next(s, CleanDeadSlot(slot)).value;
            && slot !in s'.roots && s'.maxRoot == s.maxRoot
            && (other != slot ==> (other in s'.roots <==> other in s.roots))
  {
  }

  /** Purging takes exactly the entries of the slots from the list of the key. */
  lemma PurgeTakesSlots(s: Db, key: Pubkey, slots: set<Slot>, other: Pubkey, e: Entry)
    requires slots !! s.roots
    ensures var s' := Next(s, PurgeUnrooted(key, slots)).value;
            && (e in ListOf(s', key) <==> e in ListOf(s, key) && e.slot !in slots)
            && (other != key ==> ListOf(s', other) == ListOf(s, other))
            && s'.roots == s.roots
  {
    FilterMembers(ListOf(s, key), (x: Entry) => x.slot !in slots, e);
  }

  // ----- runs -----

  ghost predicate IsRun(states: seq<Db>, steps: seq<Step>) {
    && |states| == |steps| + 1
    && forall i :: 0 <= i < |steps| ==> StepAt(states, steps, i)
  }

  ghost predicate StepAt(states: seq<Db>, steps: seq<Step>, i: nat)
    requires |states| == |steps| + 1 && i < |steps|
  {
    Allowed(states[i], steps[i]) && Next(states[i], steps[i]) == Some(states[i + 1])
  }

  lemma InitInv()
    ensures Inv(Init)
  {
  }

  lemma {:induction false} RunKeepsInv(states: seq<Db>, steps: seq<Step>, i: nat)
    requires IsRun(states, steps) && Inv(states[0])
    requires i < |states|
    ensures Inv(states[i])
    decreases i
  {
    if i > 0 {
      RunKeepsInv(states, steps, i - 1);
      assert StepAt(states, steps, i - 1);
      StepKeepsInv(states[i - 1], steps[i - 1]);
    }
  }

  /** What was found at first, with the moves of the steps since then. */
  ghost function AfterMoves(steps: seq<Step>, i: nat, j: nat, key: Pubkey, found: Option<Entry>): (r: Option<Entry>)
    requires i <= j <= |steps|
  {
    if i == j then found else AfterMove(steps[j - 1], key, AfterMoves(steps, i, j - 1, key, found))
  }

  /** Moves keep the slot; if the version of that slot is not moved they change nothing. */
  lemma {:induction false} MovesKeepSlot(steps: seq<Step>, i: nat, j: nat, key: Pubkey, found: Option<Entry>)
    requires i <= j <= |steps|
    ensures SameSlot(AfterMoves(steps, i, j, key, found), found)
    ensures (forall k :: i <= k < j ==> !Moves(steps[k], key, found)) ==> AfterMoves(steps, i, j, key, found) == found
  {
    if i < j { MovesKeepSlot(steps, i, j - 1, key, found); }
  }

  /** Both find nothing, or versions of one slot. */
  predicate SameSlot(a: Option<Entry>, b: Option<Entry>) {
    a.Some? == b.Some? && (a.Some? ==> a.value.slot == b.value.slot)
  }

  /** On every run from the empty index, a scan that is active from state i to state j, and would
      return its results in state j, sees one slot of every key in all states between; and of that
      slot the version it saw first, or the one to which it was moved since. */
  lemma ScanSeesOneView(states: seq<Db>, steps: seq<Step>, id: ScanId, i: nat, j: nat, key: Pubkey)
    requires IsRun(states, steps) && states[0] == Init
    requires i <= j < |states|
    requires forall k :: i <= k <= j ==> id in states[k].scans
    requires ReturnsOk(states[j], id)
    ensures ReturnsOk(states[i], id)
    ensures states[j].scans[id] == states[i].scans[id]
    ensures var first, now := View(states[i], states[i].scans[id], key), View(states[j], states[i].scans[id], key);
            && now == AfterMoves(steps, i, j, key, first)
            && SameSlot(now, first)
            && ((forall k :: i <= k < j ==> !Moves(steps[k], key, first)) ==> now == first)
  {
    ViewFollowsMoves(states, steps, id, i, j, key);
    MovesKeepSlot(steps, i, j, key, View(states[i], states[i].scans[id], key));
  }

  lemma {:induction false} ViewFollowsMoves(states: seq<Db>, steps: seq<Step>, id: ScanId, i: nat, j: nat, key: Pubkey)
    requires IsRun(states, steps) && states[0] == Init
    requires i <= j < |states|
    requires forall k :: i <= k <= j ==> id in states[k].scans
    requires ReturnsOk(states[j], id)
    ensures ReturnsOk(states[i], id)
    ensures states[j].scans[id] == states[i].scans[id]
    ensures View(states[j], states[i].scans[id], key) ==
              AfterMoves(steps, i, j, key, View(states[i], states[i].scans[id], key))
    decreases j
  {
    if i < j {
      InitInv();
      RunKeepsInv(states, steps, j - 1);
      assert StepAt(states, steps, j - 1);
      StepKeepsView(states[j - 1], steps[j - 1], id, key);
      ViewFollowsMoves(states, steps, id, i, j - 1, key);
    }
  }

  // ----- a clean without a bound -----

  lemma TwoVersions(a: Entry, b: Entry, roots: set<Slot>)
    requires a.slot + 1 == b.slot && a.slot in roots && b.slot in roots && !a.info.IsCached()
    ensures Lookup([a, b], {}, roots, Some(a.slot)) == Some(a)
    ensures Purged([a, b], roots, b.slot, None) == [b]
    ensures Lookup([b], {}, roots, Some(a.slot)) == None
  {
    assert [a, b][..1] == [a] && [a][..0] == [] && [b][..0] == [];
    assert Lookup([a], {}, roots, Some(a.slot)) == Some(a);
    assert NewestRoot([a], roots, None) == a.slot || a.slot == 0;
    assert NewestRoot([a, b], roots, None) == b.slot;
    var keep := (e: Entry) => Keeps(b.slot, b.slot, e);
    assert Filter([a], keep) == [];
    assert Filter([a, b], keep) == [b];
  }

  /** The steps that break a scan: a root gets a version, a scan pins it, a newer root gets a newer
      version, and the clean, whose bound is only read now, purges what the scan has to see. */
  function BreakingSteps(s: Db, c: CleanId, key: Pubkey, info: AccountInfo, id: ScanId, bank: BankId): (r: seq<Step>) {
    var r1, r2 := s.maxRoot + 1, s.maxRoot + 2;
    [Upsert(key, Entry(r1, info), r1), AddRoot(r1), StartScan(id, {}, bank),
     Upsert(key, Entry(r2, info), r2), AddRoot(r2), CleanKey(c, key)]
  }

  lemma UpsertAppends(s: Db, key: Pubkey, entry: Entry)
    requires Unused(s, entry.slot) && !HasHit(ListOf(s, key), entry.slot, entry.slot)
    ensures Allowed(s, Upsert(key, entry, entry.slot))
    ensures Next(s, Upsert(key, entry, entry.slot)) == Some(s.(index := s.index[key := ListOf(s, key) + [entry]]))
  {
  }

  /** The states that the breaking steps lead through. */
  function BreakingStates(s: Db, key: Pubkey, info: AccountInfo, id: ScanId, bank: BankId): (r: seq<Db>)
    ensures |r| == 7
  {
    var r1, r2 := s.maxRoot + 1, s.maxRoot + 2;
    var a, b := Entry(r1, info), Entry(r2, info);
    var s1 := s.(index := s.index[key := [a]]);
    var s2 := s1.(roots := s.roots + {r1}, maxRoot := r1);
    var s3 := s2.(ongoing := Pin(s.ongoing, r1), scans := map[id := Scan(r1, {}, bank)]);
    var s4 := s3.(index := s1.index[key := [a, b]]);
    var s5 := s4.(roots := s2.roots + {r2}, maxRoot := r2);
    [s, s1, s2, s3, s4, s5, s5.(index := s4.index[key := [b]])]
  }

  lemma BreakingPrefix(s: Db, c: CleanId, key: Pubkey, info: AccountInfo, id: ScanId, bank: BankId)
    requires RootsBelowMax(s) && s.scans == map[]
    requires key !in s.index && bank !in s.removedBanks
    ensures var states, steps := BreakingStates(s, key, info, id, bank), BreakingSteps(s, c, key, info, id, bank);
            StepAt(states, steps, 0) && StepAt(states, steps, 1) && StepAt(states, steps, 2)
  {
    var states := BreakingStates(s, key, info, id, bank);
    var a := Entry(s.maxRoot + 1, info);
    assert [] + [a] == [a];
    UpsertAppends(s, key, a);
    assert a.slot in states[2].roots;
  }

  lemma BreakingSuffix(s: Db, c: CleanId, key: Pubkey, info: AccountInfo, id: ScanId, bank: BankId)
    requires RootsBelowMax(s)
    ensures var states, steps := BreakingStates(s, key, info, id, bank), BreakingSteps(s, c, key, info, id, bank);
            StepAt(states, steps, 3) && StepAt(states, steps, 4)
  {
    var states := BreakingStates(s, key, info, id, bank);
    var a, b := Entry(s.maxRoot + 1, info), Entry(s.maxRoot + 2, info);
    assert [a] + [b] == [a, b];
    assert !HasHit([a], b.slot, b.slot);
    UpsertAppends(states[3], key, b);
  }

  lemma BreakingClean(s: Db, c: CleanId, key: Pubkey, info: AccountInfo, id: ScanId, bank: BankId)
    requires c in s.cleans && s.cleans[c] == None
    requires !info.IsCached()
    ensures StepAt(BreakingStates(s, key, info, id, bank), BreakingSteps(s, c, key, info, id, bank), 5)
  {
    var states := BreakingStates(s, key, info, id, bank);
    var a, b := Entry(s.maxRoot + 1, info), Entry(s.maxRoot + 2, info);
    TwoVersions(a, b, states[5].roots);
  }

  lemma BreakingRun(s: Db, c: CleanId, key: Pubkey, info: AccountInfo, id: ScanId, bank: BankId)
    requires RootsBelowMax(s) && s.scans == map[] && c in s.cleans && s.cleans[c] == None
    requires key !in s.index && !info.IsCached() && bank !in s.removedBanks
    ensures IsRun(BreakingStates(s, key, info, id, bank), BreakingSteps(s, c, key, info, id, bank))
  {
    BreakingPrefix(s, c, key, info, id, bank);
    BreakingSuffix(s, c, key, info, id, bank);
    BreakingClean(s, c, key, info, id, bank);
  }

  lemma BreakingViews(s: Db, key: Pubkey, info: AccountInfo, id: ScanId, bank: BankId)
    requires !info.IsCached() && bank !in s.removedBanks
    ensures var states := BreakingStates(s, key, info, id, bank);
            && states[0] == s && ReturnsOk(states[5], id) && ReturnsOk(states[6], id)
            && View(states[5], states[5].scans[id], key) == Some(Entry(s.maxRoot + 1, info))
            && View(states[6], states[6].scans[id], key) == None
  {
    var states := BreakingStates(s, key, info, id, bank);
    TwoVersions(Entry(s.maxRoot + 1, info), Entry(s.maxRoot + 2, info), states[5].roots);
  }

  /** A clean without a bound is never safe: whatever the index holds, from any state in which one
      is running and no scan is, allowed steps lead to a scan whose view it then changes. */
  lemma UnboundedCleanBreaks(s: Db, c: CleanId, key: Pubkey, info: AccountInfo, id: ScanId, bank: BankId)
    requires RootsBelowMax(s) && s.scans == map[] && c in s.cleans && s.cleans[c] == None
    requires key !in s.index && !info.IsCached() && bank !in s.removedBanks
    ensures var states := BreakingStates(s, key, info, id, bank);
            && IsRun(states, BreakingSteps(s, c, key, info, id, bank)) && states[0] == s
            && ReturnsOk(states[5], id) && ReturnsOk(states[6], id)
            && View(states[5], states[5].scans[id], key) == Some(Entry(s.maxRoot + 1, info))
            && View(states[6], states[6].scans[id], key) == None
  {
    BreakingRun(s, c, key, info, id, bank);
    BreakingViews(s, key, info, id, bank);
  }
}
