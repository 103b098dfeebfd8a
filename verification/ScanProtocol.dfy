/** Scans of the accounts index that run while roots are added, slots are cleaned and forks are
    removed: what keeps the view of each scan fixed.

    A scan pins the highest root at its start; a clean is bounded by the lowest pinned root at its
    start and then cleans key after key. Every lock-protected action is one step. */
module ScanProtocol {
  import opened Common
  import opened AccountInfo
  import opened SlotList
  import opened SlotListUpdate

  type ScanId = nat
  type CleanId = nat
  type BankId = nat

  /** An active scan: the root it pinned, the ancestors it uses, the bank at the tip of its fork. */
  datatype Scan = Scan(root: Slot, ancestors: set<Slot>, bank: BankId)

  datatype Db = Db(
    index: map<Pubkey, SlotList>,
    roots: set<Slot>,
    maxRoot: Slot,
    ongoing: map<Slot, nat>,
    removedBanks: set<BankId>,
    scans: map<ScanId, Scan>,
    cleans: map<CleanId, Option<Slot>>)

  datatype Step =
    | StartScan(scan: ScanId, ancestors: set<Slot>, bank: BankId)
    | EndScan(scan: ScanId)
    | AddRoot(slot: Slot)
    | CleanDeadSlot(slot: Slot)
    | Upsert(key: Pubkey, entry: Entry, other: Slot)
    | StartClean(clean: CleanId, proposed: Option<Slot>)
    | CleanKey(clean: CleanId, key: Pubkey)
    | EndClean(clean: CleanId)
    | MarkBanksRemoved(banks: set<BankId>)
    | PurgeUnrooted(key: Pubkey, slots: set<Slot>)
    | ForgetBank(bank: BankId)

  const Init := Db(map[], {}, 0, map[], {}, map[], map[])

  function ListOf(s: Db, key: Pubkey): (r: SlotList) {
    if key in s.index then s.index[key] else []
  }

  /** What a scan sees of a key when it comes to it. */
  function View(s: Db, scan: Scan, key: Pubkey): (r: Option<Entry>) {
    Lookup(ListOf(s, key), scan.ancestors, s.roots, Some(scan.root))
  }

  // ----- the steps -----

  /** The ancestors of a scan count only if its fork descends from the root it pinned. */
  function EffectiveAncestors(ancestors: set<Slot>, maxRoot: Slot): (r: set<Slot>) {
    if maxRoot in ancestors then ancestors else {}
  }

  function Pin(ongoing: map<Slot, nat>, root: Slot): (r: map<Slot, nat>) {
    ongoing[root := (if root in ongoing then ongoing[root] else 0) + 1]
  }

  /** Releasing a root that is not pinned, or pinned zero times, is a panic. */
  function Unpin(ongoing: map<Slot, nat>, root: Slot): (r: Option<map<Slot, nat>>) {
    if root !in ongoing || ongoing[root] == 0 then None
    else if ongoing[root] == 1 then Some(ongoing - {root})
    else Some(ongoing[root := ongoing[root] - 1])
  }

  lemma {:induction false} MinOf(s: set<Slot>) returns (m: Slot)
    requires s != {}
    ensures m in s && forall x :: x in s ==> m <= x
    decreases |s|
  {
    m :| m in s;
    var rest := s - {m};
    if rest != {} {
      var m' := MinOf(rest);
      assert forall x :: x in s ==> x == m || x in rest;
      if m' < m { m := m'; }
    }
  }

  lemma MinExists(s: set<Slot>)
    requires s != {}
    ensures exists m :: m in s && forall x :: x in s ==> m <= x
  {
    var m := MinOf(s);
  }

  /** The lowest pinned root. */
  function MinOngoingScanRoot(ongoing: map<Slot, nat>): (r: Option<Slot>)
    ensures r.None? <==> ongoing == map[]
    ensures r.Some? ==> r.value in ongoing && forall x :: x in ongoing ==> r.value <= x
  {
    if ongoing == map[] then None
    else
      MinExists(ongoing.Keys);
      var m :| m in ongoing.Keys && forall x :: x in ongoing.Keys ==> m <= x;
      Some(m)
  }

  /** accounts_db.rs `max_clean_root`: the bound of a clean, if it has one. */
  function MaxCleanRoot(ongoing: map<Slot, nat>, proposed: Option<Slot>): (r: Option<Slot>) {
    match (MinOngoingScanRoot(ongoing), proposed)
    case (None, p) => p
    case (Some(m), None) => Some(m)
    case (Some(m), Some(p)) => Some(Min(m, p))
  }

  /** The bound is the lowest of the pinned roots and the proposed one; there is none only without any of these. */
  lemma MaxCleanRootIs(ongoing: map<Slot, nat>, proposed: Option<Slot>)
    ensures var bound := MaxCleanRoot(ongoing, proposed);
            && (bound.None? <==> ongoing == map[] && proposed.None?)
            && (bound.Some? ==>
                  && (bound.value in ongoing || proposed == bound)
                  && (forall root :: root in ongoing ==> bound.value <= root)
                  && (proposed.Some? ==> bound.value <= proposed.value))
  {
  }

  /** A key whose list has become empty leaves the index. */
  function SetList(index: map<Pubkey, SlotList>, key: Pubkey, list: SlotList): (r: map<Pubkey, SlotList>) {
    if list == [] then index - {key} else index[key := list]
  }

  /** What a step does; `None` where the source panics or the step refers to no scan or clean. */
  function Next(s: Db, step: Step): (r: Option<Db>) {
    match step
    case StartScan(id, ancestors, bank) =>
      if bank in s.removedBanks then Some(s)
      else Some(s.(ongoing := Pin(s.ongoing, s.maxRoot),
                   scans := s.scans[id := Scan(s.maxRoot, EffectiveAncestors(ancestors, s.maxRoot), bank)]))
    case EndScan(id) =>
      if id !in s.scans then None
      else
        var ongoing := Unpin(s.ongoing, s.scans[id].root);
        if ongoing.None? then None else Some(s.(ongoing := ongoing.value, scans := s.scans - {id}))
    case AddRoot(slot) =>
      if slot < s.maxRoot then None else Some(s.(roots := s.roots + {slot}, maxRoot := slot))
    case CleanDeadSlot(slot) => Some(s.(roots := s.roots - {slot}))
    case Upsert(key, entry, other) => Some(s.(index := s.index[key := Updated(ListOf(s, key), entry, other)]))
    case StartClean(id, proposed) => Some(s.(cleans := s.cleans[id := MaxCleanRoot(s.ongoing, proposed)]))
    case CleanKey(id, key) =>
      if id !in s.cleans then None
      else if key !in s.index then Some(s)
      else Some(s.(index := SetList(s.index, key, Purged(s.index[key], s.roots, s.maxRoot, s.cleans[id]))))
    case EndClean(id) => Some(s.(cleans := s.cleans - {id}))
    case MarkBanksRemoved(banks) => Some(s.(removedBanks := s.removedBanks + banks))
    case PurgeUnrooted(key, slots) =>
      if !(slots !! s.roots) then None
      else if key !in s.index then Some(s)
      else Some(s.(index := SetList(s.index, key, Filter(s.index[key], (e: Entry) => e.slot !in slots))))
    case ForgetBank(bank) => Some(s.(removedBanks := s.removedBanks - {bank}))
  }

  /** Whether the scan, if it ended now, would return its results: its bank was not removed. */
  predicate ReturnsOk(s: Db, id: ScanId) {
    id in s.scans && s.scans[id].bank !in s.removedBanks
  }

  // ----- what the environment promises -----

  /** No entry of the index is at this slot. */
  ghost predicate Unreferenced(s: Db, slot: Slot) {
    forall key, e :: key in s.index && e in s.index[key] ==> e.slot != slot
  }

  /** A root, or a slot without entries: entries at it cannot be cleaned away unseen. */
  ghost predicate Settled(s: Db, slot: Slot) {
    slot in s.roots || Unreferenced(s, slot)
  }

  /** A slot that no active scan looks at except as a root. */
  ghost predicate Unused(s: Db, slot: Slot) {
    slot !in s.roots && forall id :: id in s.scans ==> slot !in s.scans[id].ancestors && slot != s.scans[id].root
  }

  /** The callers' side of the protocol.
      - A scan starts under a new name; its ancestors up to the pinned root are rooted.
      - A dead slot has no entries left.
      - An update is to a slot that is neither a root nor used by an active scan, or it replaces the
        version of a slot by another of the same slot, as flushing and shrinking do.
      - A clean has a bound, not above the highest root.
      - Unrooted slots are purged only once the banks of the scans that use them are marked.
      - A bank is forgotten only when no scan uses it. */
  ghost predicate Allowed(s: Db, step: Step) {
    match step
    case StartScan(id, ancestors, bank) =>
      && id !in s.scans
      && Settled(s, s.maxRoot)
      && forall a :: a in EffectiveAncestors(ancestors, s.maxRoot) && a < s.maxRoot ==> Settled(s, a)
    case EndScan(id) => id in s.scans
    case AddRoot(slot) => slot >= s.maxRoot
    case CleanDeadSlot(slot) => Unreferenced(s, slot)
    case Upsert(key, entry, other) =>
      (Unused(s, entry.slot) && Unused(s, other)) || Relocates(ListOf(s, key), entry, other)
    case StartClean(id, proposed) =>
      id !in s.cleans && MaxCleanRoot(s.ongoing, proposed).Some? && (proposed.Some? ==> proposed.value <= s.maxRoot)
    case CleanKey(id, key) => id in s.cleans
    case EndClean(id) => true
    case MarkBanksRemoved(banks) => true
    case PurgeUnrooted(key, slots) =>
      && slots !! s.roots
      && forall id :: id in s.scans && !(s.scans[id].ancestors !! slots) ==> s.scans[id].bank in s.removedBanks
    case ForgetBank(bank) => forall id :: id in s.scans ==> s.scans[id].bank != bank
  }

  // ----- the invariant -----

  ghost function PinnedBy(scans: map<ScanId, Scan>, root: Slot): (r: set<ScanId>) {
    set id | id in scans && scans[id].root == root
  }

  /** Each root is pinned as often as there are active scans at it. */
  ghost predicate PinsCounted(s: Db) {
    && (forall r :: r in s.ongoing ==> s.ongoing[r] == |PinnedBy(s.scans, r)| > 0)
    && (forall id :: id in s.scans ==> s.scans[id].root in s.ongoing)
  }

  ghost predicate RootsBelowMax(s: Db) {
    forall r :: r in s.roots ==> r <= s.maxRoot
  }

  ghost predicate ScanSettled(s: Db, scan: Scan) {
    && scan.root <= s.maxRoot
    && Settled(s, scan.root)
    && forall a :: a in scan.ancestors && a < scan.root ==> Settled(s, a)
  }

  ghost predicate ScansSettled(s: Db) {
    forall id :: id in s.scans ==> ScanSettled(s, s.scans[id])
  }

  /** Every clean is bounded, below the highest root and below every pinned root. */
  ghost predicate CleansBounded(s: Db) {
    forall c :: c in s.cleans ==>
      && s.cleans[c].Some? && s.cleans[c].value <= s.maxRoot
      && forall id :: id in s.scans ==> s.cleans[c].value <= s.scans[id].root
  }

  /** No list has a slot twice, so the assertion in `update_slot_list` holds. */
  ghost predicate ListsUnique(s: Db) {
    forall key :: key in s.index ==> UniqueSlots(s.index[key])
  }

  ghost predicate Inv(s: Db) {
    PinsCounted(s) && RootsBelowMax(s) && ScansSettled(s) && CleansBounded(s) && ListsUnique(s)
  }
}
