/** The accounts index as an object: its methods are the steps of the scan protocol.

    The alive roots are a set with a maximum that never falls; module RollingBitField shows how
    they are kept. Scans and cleans live in the callers, so they are ghost parameters here. */
module AccountsIndex {
  import opened Common
  import opened AccountInfo
  import opened SlotList
  import opened SlotListUpdate
  import opened ScanProtocol

  datatype ScanError = SlotRemoved(bank: BankId)

  class AccountsIndex {
    var accountMaps: map<Pubkey, SlotList>
    var aliveRoots: set<Slot>
    var maxRootInclusive: Slot
    var ongoingScanRoots: map<Slot, nat>
    var removedBankIds: set<BankId>

    ghost function State(scans: map<ScanId, Scan>, cleans: map<CleanId, Option<Slot>>): (r: Db)
      reads this
    {
      Db(accountMaps, aliveRoots, maxRootInclusive, ongoingScanRoots, removedBankIds, scans, cleans)
    }

    constructor ()
      ensures State(map[], map[]) == Init
    {
      accountMaps, aliveRoots, maxRootInclusive := map[], {}, 0;
      ongoingScanRoots, removedBankIds := map[], {};
    }

    /** Roots are added in order. */
    method AddRoot(slot: Slot, ghost scans: map<ScanId, Scan>, ghost cleans: map<CleanId, Option<Slot>>)
      requires slot >= maxRootInclusive
      modifies this
      ensures Some(State(scans, cleans)) == old(Next(State(scans, cleans), Step.AddRoot(slot)))
      ensures aliveRoots == old(aliveRoots) + {slot} && maxRootInclusive == slot
    {
      aliveRoots := aliveRoots + {slot};
      maxRootInclusive := slot;
    }

    /** Forgets a root; the maximum stays. Tells whether the slot was a root. */
    method CleanDeadSlot(slot: Slot, ghost scans: map<ScanId, Scan>, ghost cleans: map<CleanId, Option<Slot>>)
      returns (wasRoot: bool)
      modifies this
      ensures wasRoot <==> slot in old(aliveRoots)
      ensures aliveRoots == old(aliveRoots) - {slot} && maxRootInclusive == old(maxRootInclusive)
      ensures Some(State(scans, cleans)) == old(Next(State(scans, cleans), Step.CleanDeadSlot(slot)))
    {
      wasRoot := slot in aliveRoots;
      aliveRoots := aliveRoots - {slot};
    }

    /** The newest version of an account that is in `ancestors` or in a root. */
    method Get(key: Pubkey, ancestors: Option<set<Slot>>, maxRoot: Option<Slot>) returns (found: Option<Entry>)
      ensures found == Lookup(if key in accountMaps then accountMaps[key] else [],
                              if ancestors.Some? then ancestors.value else {}, aliveRoots, maxRoot)
    {
      if key !in accountMaps { return None; }
      var list := accountMaps[key];
      var index := LatestSlot(ancestors, list, maxRoot, aliveRoots);
      LatestIsLookup(list, if ancestors.Some? then ancestors.value else {}, aliveRoots, maxRoot, index);
      found := if index.Some? then Some(list[index.value]) else None;
    }

    /** Stores a new version. */
    method Upsert(key: Pubkey, slot: Slot, oldSlot: Slot, info: AccountInfo, reclaims0: SlotList,
                  reclaim: UpsertReclaim, ghost scans: map<ScanId, Scan>, ghost cleans: map<CleanId, Option<Slot>>)
      returns (addref: bool, reclaims: SlotList)
      requires key in accountMaps ==> HitsOnce(accountMaps[key], slot, oldSlot)
      requires key in accountMaps && reclaim.PreviousSlotEntryWasCached? ==>
                AllHitsCached(accountMaps[key], slot, oldSlot)
      modifies this
      ensures Some(State(scans, cleans)) ==
                old(Next(State(scans, cleans), Step.Upsert(key, Entry(slot, info), oldSlot)))
      ensures accountMaps == old(accountMaps)[key := Updated(old(if key in accountMaps then accountMaps[key] else []),
                                                             Entry(slot, info), oldSlot)]
      ensures addref <==> !info.IsCached() && AllHitsCached(ListOf(old(State(scans, cleans)), key), slot, oldSlot)
      ensures reclaims == reclaims0 + if reclaim.PopulateReclaims?
                                      then HitsFromEnd(ListOf(old(State(scans, cleans)), key), slot, oldSlot) else []
    {
      var list := if key in accountMaps then accountMaps[key] else [];
      addref, list, reclaims := UpdateSlotList(list, slot, info, Some(oldSlot), reclaims0, reclaim);
      accountMaps := accountMaps[key := list];
    }

    /** Cleans one key within the bound; tells whether the key is gone. */
    method CleanRootedEntries(key: Pubkey, reclaims0: SlotList, ghost clean: CleanId, bound: Option<Slot>,
                              ghost scans: map<ScanId, Scan>, ghost cleans: map<CleanId, Option<Slot>>)
      returns (gone: bool, reclaims: SlotList)
      requires clean in cleans && cleans[clean] == bound
      modifies this
      ensures Some(State(scans, cleans)) == old(Next(State(scans, cleans), CleanKey(clean, key)))
      ensures gone <==> key !in accountMaps
      ensures old(key in accountMaps) ==>
                var kept := Purged(old(accountMaps[key]), old(aliveRoots), old(maxRootInclusive), bound);
                (gone <==> kept == []) && (!gone ==> accountMaps[key] == kept)
      ensures accountMaps - {key} == old(accountMaps) - {key}
      ensures reclaims == reclaims0 + old(if key in accountMaps
                                          then Reclaimed(accountMaps[key], aliveRoots, maxRootInclusive, bound) else [])
    {
      if key !in accountMaps { return true, reclaims0; }
      var list;
      list, reclaims := PurgeOlderRootEntries(accountMaps[key], reclaims0, aliveRoots, maxRootInclusive, bound);
      gone := list == [];
      accountMaps := if gone then accountMaps - {key} else accountMaps[key := list];
    }

    /** The start of a checked scan: refuses removed banks, pins the highest root and decides
        whether the given ancestors still count. */
    method BeginScan(ancestors: set<Slot>, bank: BankId, ghost id: ScanId,
                     ghost scans: map<ScanId, Scan>, ghost cleans: map<CleanId, Option<Slot>>)
      returns (result: Option<Scan>, ghost scans': map<ScanId, Scan>)
      modifies this
      ensures Some(State(scans', cleans)) == old(Next(State(scans, cleans), StartScan(id, ancestors, bank)))
      ensures result.None? <==> bank in old(removedBankIds)
      ensures result.Some? ==> scans' == scans[id := result.value]
      ensures result.Some? ==> result.value.root == old(maxRootInclusive) && result.value.bank == bank
      ensures result.Some? ==>
                result.value.ancestors == if old(maxRootInclusive) in ancestors then ancestors else {}
    {
      if bank in removedBankIds { return None, scans; }
      var maxRoot := maxRootInclusive;
      var pins := if maxRoot in ongoingScanRoots then ongoingScanRoots[maxRoot] else 0;
      ongoingScanRoots := ongoingScanRoots[maxRoot := pins + 1];
      var scan := Scan(maxRoot, if maxRoot in ancestors then ancestors else {}, bank);
      result, scans' := Some(scan), scans[id := scan];
    }

    /** The end of a checked scan: releases its root and checks that its bank was not removed. The
        root is always there, because pins are counted. */
    method FinishScan(scan: Scan, ghost id: ScanId, ghost scans: map<ScanId, Scan>,
                      ghost cleans: map<CleanId, Option<Slot>>)
      returns (ok: bool)
      requires id in scans && scans[id] == scan && PinsCounted(State(scans, cleans))
      modifies this
      ensures Some(State(scans - {id}, cleans)) == old(Next(State(scans, cleans), EndScan(id)))
      ensures ok <==> old(ReturnsOk(State(scans, cleans), id))
      ensures ok <==> scan.bank !in old(removedBankIds)
    {
      var root := scan.root;
      assert State(scans, cleans).scans[id].root in State(scans, cleans).ongoing;
      var count := ongoingScanRoots[root] - 1;
      ongoingScanRoots := if count == 0 then ongoingScanRoots - {root} else ongoingScanRoots[root := count];
      ok := scan.bank !in removedBankIds;
    }

    /** Marks banks whose slots are about to be purged. */
    method MarkBanksRemoved(banks: set<BankId>, ghost scans: map<ScanId, Scan>,
                            ghost cleans: map<CleanId, Option<Slot>>)
      modifies this
      ensures Some(State(scans, cleans)) == old(Next(State(scans, cleans), Step.MarkBanksRemoved(banks)))
      ensures removedBankIds == old(removedBankIds) + banks
    {
      removedBankIds := removedBankIds + banks;
    }
  }
}
