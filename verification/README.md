# Accounts database: a verified model

This project models the core of the accounts database under
`Base/grid_coprocessor/accounts-db` and the decimal printer of
`Base/grid_coprocessor/account-decoder`, and proves what they promise. One
module stands for one component:

- **Accounts hash.** `MerkleTree` defines the tree level by level; `MerkleHasher`
  has the nested loops that hash three levels in one pass over data in several
  slices, and `CumulativeOffsets` the addressing of such data. `SlotGroups` says
  which version of an account wins; `Merge`, `Dedup` and `HashCalculation` have
  the multi-way merge with its working set, per bin of pubkeys (`PubkeyBins`).
- **Accounts index.** `SlotList` has lookups and purges of one key's versions,
  `SlotListUpdate` the update in place. `ScanProtocol` is a state machine whose
  steps are the lock-protected actions of scans, cleans, root changes and
  updates; `ScanSafety` proves that every scan sees one view on every run.
  `AccountsIndex` is the object whose methods are those steps,
  `RollingBitField` its set of roots, `IndexIterator` its chunked range scan.
  `ConcurrentScan` joins the two: the scan loop, with such steps between its
  chunks and lookups, calls back what the scan pinned. `DuplicateRemoval` is the
  preparation of bulk insertion.
- **Rent partitions.** `Partition` has the pubkey ranges and their inverse,
  `PartitionWalk` the walk of a chain of slots over them.
- **Stores.** `AppendVec` is the append-only file with its byte format,
  `AccountInfo` the packed location in the index, `ShrinkProtocol` the hand-over
  between an old and a shrunk store under concurrent readers, `AccountsCache`
  the write cache that reads through to a remote loader.
- **Around them.** `AccountLocks`, `BlockhashQueue` and `Decimal`.

`Arith`, `Ascending`, `Common` and `Search` hold shared definitions. Hash
functions and the pubkey binner are parameters: nothing depends on which they
are. The remote loader's answer is a parameter of each load. Integers are
unbounded; where 64 bits matter (capitalization, partition widths, offsets) the
bound is written out.

## Findings

Where a promise of the code or its comments does not hold on all inputs, the
code is modelled as it is, a lemma gives an input, and another says exactly when
the promise holds.

- `RollingBitField::insert` counts wrongly when its window is empty and an
  excess key is not below the new key (`RollingBitField.Insert`,
  `MiscountExample`). Roots added in order never get there (`InOrderIsProper`).
- A clean whose bound is `None` takes its bound from the highest root while it
  runs, and can take away what a scan that started meanwhile sees
  (`ScanSafety.UnboundedCleanBreaks`); cleans that have a bound are safe
  (`ScanSeesOneView`).
- `partition_from_pubkey` is documented as the inverse of
  `pubkey_range_from_partition`, but puts the prefixes behind n whole widths past
  the last partition (`Partition.InverseExactly`, `InverseEverywhere`,
  `InverseFails`).
- A slot that has index 0 and whose parent lies in an earlier cycle covers index 0
  only: the indexes behind the parent's, up to the last one, are left out
  (`PartitionWalk.LandingDrops`). No other step leaves the order of the indexes,
  so a chain goes round them without a gap exactly if it has no such step, or
  only such steps from the last index (`StepGoesOnExactly`,
  `WalkGoesOnExactly`). A step over several cycles skips whole rounds besides,
  from slot 3 to slot 8 with four partitions for example (`StepAccounts`). A pair
  of equal indexes other than 0, 0, described as empty, has a range of one pubkey
  (`Partition.PubkeyRangeFromPartition`).
- A reader of a new store misses it if two shrinks of its slot end while it looks
  (`ShrinkProtocol.ReaderFindsExactly`, `TwoDropsMiss`). A shrink whose slot is
  removed meanwhile, which `remove` allows, fails at its end
  (`DropAssertionsHold`).
- `is_hash_valid` may accept a hash older than the maximal age if hashes repeat
  (`BlockhashQueue.RepeatsKeepOldHash`, `OnlyRecentExactly`);
  `is_hash_valid_for_age` does not.

## Model

| member | source | states |
|---|---|---|
| MerkleTree.OneLevelCount | Base/grid_coprocessor/accounts-db/src/accounts_hash.rs:541-558 | a reduction of at most, exactly or at least m * fanout hashes has at most, exactly or at least m hashes |
| MerkleTree.OneLevelShrinks | Base/grid_coprocessor/accounts-db/src/accounts_hash.rs:516-567 | with fanout at least 2 a reduction of two or more hashes is shorter, so every root computation ends |
| MerkleTree.DivCeil | Base/grid_coprocessor/accounts-db/src/accounts_hash.rs:520-526 | the quotient rounded up |
| MerkleTree.ThreeLevelsOfChunk | Base/grid_coprocessor/accounts-db/src/accounts_hash.rs:665-728 | three reductions of at most fanout^3 hashes are one hash |
| MerkleTree.RootOfLevel | Base/grid_coprocessor/accounts-db/src/accounts_hash.rs:762-775 | for at least 2 * fanout hashes the root of one reduction is the root of the hashes, so a pass may be followed by a recursive call |
| MerkleTree.RootOfThreeLevels | Base/grid_coprocessor/accounts-db/src/accounts_hash.rs:665-775 | for at least fanout^4 hashes the root of three reductions is the root of the hashes |
| MerkleTree.RootBinds | Base/grid_coprocessor/accounts-db/src/accounts_hash.rs:530-567 | with a hash that is injective on groups, equally many hashes with one root are the same hashes |
| MerkleTree.RootIsLevels | Base/grid_coprocessor/accounts-db/src/accounts_hash.rs:530-567 | the root is the one hash of the first reduction that leaves a single one: at least one reduction, and none after that |
| MerkleTree.OneLevelAt | Base/grid_coprocessor/accounts-db/src/accounts_hash.rs:541-558 | each hash of a reduction is that of its own group of fanout hashes, the last group perhaps short |
| MerkleHasher.NextHash | Base/grid_coprocessor/accounts-db/src/accounts_hash.rs:656-663 | pulls hash i from the current slice, or from a new one at i, whatever lengths the slices have |
| MerkleHasher.HashOneLevelChunk | Base/grid_coprocessor/accounts-db/src/accounts_hash.rs:652-664 | the hash of a group of fanout hashes that are pulled from several slices |
| MerkleHasher.HashGroups | Base/grid_coprocessor/accounts-db/src/accounts_hash.rs:706-726 | the hashes of up to fanout groups of fanout hashes, advancing by exactly the hashes used |
| MerkleHasher.HashThreeLevelChunk | Base/grid_coprocessor/accounts-db/src/accounts_hash.rs:665-730 | the nested loops compute three reductions of their chunk at once |
| MerkleHasher.CalculateThreeLevelChunks | Base/grid_coprocessor/accounts-db/src/accounts_hash.rs:569-594 | three levels only for at least fanout^4 hashes and never more levels than asked for |
| MerkleHasher.HashChunks | Base/grid_coprocessor/accounts-db/src/accounts_hash.rs:623-732 | one pass over all chunks is one reduction, or three |
| MerkleHasher.HashVector | Base/grid_coprocessor/accounts-db/src/accounts_hash.rs:541-558 | one reduction of a vector |
| MerkleHasher.ComputeMerkleRootLoop | Base/grid_coprocessor/accounts-db/src/accounts_hash.rs:530-567 | the naive loop returns the root |
| MerkleHasher.ComputeMerkleRootFromSlices | Base/grid_coprocessor/accounts-db/src/accounts_hash.rs:598-760 | over any slice source, fanout of at least 2 and pass limit: the naive root when no level count is given, else exactly that many reductions |
| CumulativeOffsets.New | Base/grid_coprocessor/accounts-db/src/accounts_hash.rs:410-439 | one offset per non-empty data source, at the sum of the lengths before it |
| CumulativeOffsets.EntryFacts | Base/grid_coprocessor/accounts-db/src/accounts_hash.rs:410-439 | an entry starts where the sources before it end and ends where the next entry starts |
| CumulativeOffsets.FindIndex | Base/grid_coprocessor/accounts-db/src/accounts_hash.rs:442-448 | the binary search finds the one entry whose source holds the overall index |
| CumulativeOffsets.GetSlice | Base/grid_coprocessor/accounts-db/src/accounts_hash.rs:453-467 | a non-empty prefix of the concatenation from the overall index on |
| CumulativeOffsets.SlicesOfOffsets | Base/grid_coprocessor/accounts-db/src/accounts_hash.rs:461-467 | the offsets are a slice source of the concatenation, as the Merkle computation needs |
| CumulativeOffsets.CalculateHash | Base/grid_coprocessor/accounts-db/src/accounts_hash.rs:497-509 | the root of hashes in several vectors is the naive root of their concatenation: the hash of all of them up to 16, for 17 the hash of two group hashes |
| SlotGroups.NewestIs | Base/grid_coprocessor/accounts-db/src/accounts_hash.rs:1116-1121 | reference for the winner of a pubkey: its last item in the highest group that has it |
| SlotGroups.WinnersUnique | Base/grid_coprocessor/accounts-db/src/accounts_hash.rs:1116-1121 | the list of winners in pubkey order is determined by the groups |
| SlotGroups.EmitAtMostOneEach | Base/grid_coprocessor/accounts-db/src/accounts_hash.rs:1161-1175 | a winner gives at most one hash |
| SlotGroups.EmitIncluded | Base/grid_coprocessor/accounts-db/src/accounts_hash.rs:1161-1175 | with zero-lamport accounts included, one hash per winner in order: its own, or that of its pubkey if it has no lamports |
| SlotGroups.EmitExcluded | Base/grid_coprocessor/accounts-db/src/accounts_hash.rs:1161-1175 | with zero-lamport accounts excluded, the hashes of exactly the winners with lamports, in order |
| Search.BinarySearchBy | Base/grid_coprocessor/accounts-db/src/accounts_hash.rs:1072-1075 | the library search: an equal element, or the place to insert, for every ordered vector |
| Merge.View.SkipDominated | Base/grid_coprocessor/accounts-db/src/accounts_hash.rs:1087-1096 | a key that a later group already has may be skipped in an earlier one |
| Merge.View.TakeOver | Base/grid_coprocessor/accounts-db/src/accounts_hash.rs:1097-1110 | a later group takes over the key, and the group it came from is moved on |
| Merge.View.Insert | Base/grid_coprocessor/accounts-db/src/accounts_hash.rs:1077-1084 | inserting a new key where the search points keeps the working set descending, one pointer per group |
| Merge.View.LastIsSmallest | Base/grid_coprocessor/accounts-db/src/accounts_hash.rs:1149-1150 | the last pointer of the working set has the smallest key that is left |
| Merge.View.Pop | Base/grid_coprocessor/accounts-db/src/accounts_hash.rs:1149-1183 | popping it keeps the working set an exact frontier of what is left |
| Dedup.BinarySearchForFirstPubkeyInBin | Base/grid_coprocessor/accounts-db/src/accounts_hash.rs:904-936 | the first index in the bin, or none exactly when the bin is empty |
| Dedup.FindFirstPubkeyInBin | Base/grid_coprocessor/accounts-db/src/accounts_hash.rs:940-976 | the same from an interpolated guess, on either side of it |
| Dedup.GetItem | Base/grid_coprocessor/accounts-db/src/accounts_hash.rs:863-900 | the last duplicate at the pointer, and the next key of the group if it is still in the bin |
| Dedup.FindPlace | Base/grid_coprocessor/accounts-db/src/accounts_hash.rs:1055-1076 | the fast path and the search agree on where a key is or belongs |
| Dedup.PlaceItem | Base/grid_coprocessor/accounts-db/src/accounts_hash.rs:1058-1112 | one round of the loop keeps the working set invariant and makes progress |
| Dedup.AddNextItem | Base/grid_coprocessor/accounts-db/src/accounts_hash.rs:1047-1114 | ends with a strictly descending working set: one first occurrence per group not exhausted in the bin, no key missed |
| Dedup.CountInBin | Base/grid_coprocessor/accounts-db/src/accounts_hash.rs:1027-1036 | the number of items of a group in the bin |
| Dedup.AddGroup | Base/grid_coprocessor/accounts-db/src/accounts_hash.rs:1006-1040 | one group more keeps the working set invariant, and adds its items in the bin to the count |
| Dedup.InitializeDedupWorkingSet | Base/grid_coprocessor/accounts-db/src/accounts_hash.rs:980-1044 | starts the invariant from all groups; the count is the number of their items in the bin |
| Dedup.PopIsNewest | Base/grid_coprocessor/accounts-db/src/accounts_hash.rs:1149-1158 | the item read at the popped pointer is the winner of its pubkey |
| Dedup.AllDelivered | Base/grid_coprocessor/accounts-db/src/accounts_hash.rs:1149-1184 | when the working set is empty the winners of the bin were delivered, all of them |
| HashCalculation.PopItem | Base/grid_coprocessor/accounts-db/src/accounts_hash.rs:1149-1183 | one round delivers the next winner in pubkey order and leaves less to do |
| HashCalculation.DeDupAccountsInParallel | Base/grid_coprocessor/accounts-db/src/accounts_hash.rs:1123-1187 | the hashes and lamport sum of exactly the winners of a bin in pubkey order; the count the file is sized with is that of all items in the bin, and there are never more hashes than that; a sum beyond 64 bits is the panic |
| HashCalculation.DeDupAccounts | Base/grid_coprocessor/accounts-db/src/accounts_hash.rs:800-859 | flattened over the bins: one hash per winner in pubkey order and their lamports, or overflow exactly if they overflow |
| HashCalculation.RestOfHashCalculation | Base/grid_coprocessor/accounts-db/src/accounts_hash.rs:1192-1217 | the accounts hash is the naive Merkle root of the winners' hashes, and comes with the sum of their lamports; there is none exactly if the sum does not fit in 64 bits |
| HashCalculation.BinCountDoesNotMatter | Base/grid_coprocessor/accounts-db/src/accounts_hash.rs:800-859 | any two bin counts give the same hash and capitalization |
| PubkeyBins.BinMonotone | Base/grid_coprocessor/accounts-db/src/pubkey_bins.rs:19-36 | bins follow the order of pubkeys |
| PubkeyBins.BinInRange | Base/grid_coprocessor/accounts-db/src/pubkey_bins.rs:19-36 | every pubkey is in one of the 2^bits bins |
| PubkeyBins.BinIsLeadingBits | Base/grid_coprocessor/accounts-db/src/pubkey_bins.rs:19-36 | the bin is the number made of the leading bits |
| PubkeyBins.BinsFollowPubkeys | Base/grid_coprocessor/accounts-db/src/pubkey_bins.rs:19-36 | so this binner meets what the accounts hash and the index ask of one |
| SlotList.LatestSlot | Base/grid_coprocessor/accounts-db/src/accounts_index.rs:1301-1338 | the index of the highest entry at an ancestor, or at a root not above the bound |
| SlotList.LookupIsHighest | Base/grid_coprocessor/accounts-db/src/accounts_index.rs:1301-1338 | reference for it: the last of the highest visible entries, none exactly if nothing is visible |
| SlotList.LatestIsLookup | Base/grid_coprocessor/accounts-db/src/accounts_index.rs:1301-1338 | index and reference agree |
| SlotList.LookupSees | Base/grid_coprocessor/accounts-db/src/accounts_index.rs:1301-1338 | what is found is at an ancestor or at a root up to the bound, and no such entry lies above it |
| SlotList.FilterLookup | Base/grid_coprocessor/accounts-db/src/accounts_index.rs:1814-1845 | removing entries leaves a lookup unchanged exactly if its result is not removed |
| SlotList.GetNewestRootInSlotList | Base/grid_coprocessor/accounts-db/src/accounts_index.rs:1458-1475 | the highest root of the list up to the bound, 0 if there is none |
| SlotList.PurgeOlderRootEntries | Base/grid_coprocessor/accounts-db/src/accounts_index.rs:1814-1845 | keeps and reclaims what the bound says, both in order |
| SlotList.PurgePartitions | Base/grid_coprocessor/accounts-db/src/accounts_index.rs:1814-1845 | kept and reclaimed entries are together the old ones |
| SlotList.PurgedExactly | Base/grid_coprocessor/accounts-db/src/accounts_index.rs:1814-1845 | kept are, in order, cached entries, those not below the bound and those of the newest root; reclaimed are exactly the others |
| SlotList.PurgeKeepsLookup | Base/grid_coprocessor/accounts-db/src/accounts_index.rs:1814-1895 | for every list, root set, bound and ancestors that are roots below the bound, a lookup at or above the bound finds the same entry after the purge |
| SlotList.PurgeNoticedExactly | Base/grid_coprocessor/accounts-db/src/accounts_index.rs:1814-1895 | for any lookup: it changes exactly if it found an entry that the purge removed |
| SlotList.PurgeIdempotent | Base/grid_coprocessor/accounts-db/src/accounts_index.rs:1814-1845 | a second purge removes nothing |
| SlotListUpdate.UpdateSlotList | Base/grid_coprocessor/accounts-db/src/in_mem_accounts_index.rs:590-660 | the backward loop replaces the last matching entry, drops another, appends if there is none; which entries are reclaimed and whether a reference is added |
| SlotListUpdate.FirstHitOfSlot | Base/grid_coprocessor/accounts-db/src/in_mem_accounts_index.rs:590-660 | in a list that has each of the two slots at most once, the assertion that a slot is met once holds in every round |
| SlotListUpdate.UpdatedMembers | Base/grid_coprocessor/accounts-db/src/in_mem_accounts_index.rs:590-660 | an updated list has the new entry and exactly the old ones at slots other than its two |
| SlotListUpdate.UpdatedPlace | Base/grid_coprocessor/accounts-db/src/in_mem_accounts_index.rs:590-660 | it takes the place of the last old entry at the two slots, the other one goes, and the rest keeps its order |
| SlotListUpdate.UpdatedAtEnd | Base/grid_coprocessor/accounts-db/src/in_mem_accounts_index.rs:590-660 | without an old entry at the two slots the new one is appended |
| SlotListUpdate.HitsFromEndAre | Base/grid_coprocessor/accounts-db/src/in_mem_accounts_index.rs:590-660 | the reclaimed entries are exactly those at the two slots, from the end |
| SlotListUpdate.AllHitsCachedIs | Base/grid_coprocessor/accounts-db/src/in_mem_accounts_index.rs:590-660 | a reference is needed exactly if all old entries at the two slots were cached |
| SlotListUpdate.UpdatedUnique | Base/grid_coprocessor/accounts-db/src/in_mem_accounts_index.rs:590-660 | a list without repeated slots stays so |
| SlotListUpdate.UpdateUnseen | Base/grid_coprocessor/accounts-db/src/in_mem_accounts_index.rs:590-660 | an update at slots a lookup does not look at leaves its result |
| SlotListUpdate.RelocationSeen | Base/grid_coprocessor/accounts-db/src/in_mem_accounts_index.rs:590-660 | an update that stores the version of a slot anew changes a lookup that finds this slot to the new location, and no other lookup |
| ScanProtocol.MinOngoingScanRoot | Base/grid_coprocessor/accounts-db/src/accounts_index.rs:785-787 | the lowest pinned root, if any |
| ScanProtocol.MaxCleanRootIs | Base/grid_coprocessor/accounts-db/src/accounts_db.rs:2871-2884 | the bound of a clean is the lowest of the pinned roots and the proposed one, none exactly if there is neither |
| ScanSafety.StepKeepsInv | Base/grid_coprocessor/accounts-db/src/accounts_index.rs:789-1019 | every step keeps: pins counted per root, cleans bounded by all pins, unique slots; so releasing a pin never fails |
| ScanSafety.StepKeepsView | Base/grid_coprocessor/accounts-db/src/accounts_index.rs:789-1019 | after any allowed step an active scan sees of every key the version it saw, or where the step moved it, which is at the same slot |
| ScanSafety.RunKeepsInv | Base/grid_coprocessor/accounts-db/src/accounts_index.rs:789-1019 | the invariant holds in every state of every run |
| ScanSafety.ScanSeesOneView | Base/grid_coprocessor/accounts-db/src/accounts_index.rs:789-1019 | on every run, from a scan's start to its end, each key shows one slot, and of it the version seen first or the one to which it was moved since; the same version if it was not moved |
| ScanSafety.ScanSeesItsFork | Base/grid_coprocessor/accounts-db/src/accounts_index.rs:889-915 | a scan of a bank that descends from the pinned root sees every key that has an entry at one of the bank's ancestors, at that slot or above |
| ScanSafety.ScanSeesNoOtherFork | Base/grid_coprocessor/accounts-db/src/accounts_index.rs:889-915 | what a scan sees is at its own ancestors or at a root up to the pinned one |
| ScanSafety.ScanOfStaleFork | Base/grid_coprocessor/accounts-db/src/accounts_index.rs:889-915 | a scan of a bank that does not descend from the pinned root sees of every key its highest root up to the pinned one, and nothing else |
| ScanSafety.RemovedBanksAreRefused | Base/grid_coprocessor/accounts-db/src/accounts_index.rs:802-1018 | no scan of a removed bank starts, and none that runs returns its results |
| ScanSafety.DeadSlotIsNoRoot | Base/grid_coprocessor/accounts-db/src/accounts_index.rs:1947-1961 | a dead slot is no root any more, the others and the highest one stay |
| ScanSafety.PurgeTakesSlots | Base/grid_coprocessor/accounts-db/src/accounts_index.rs:1271-1299 | purging slots takes exactly their entries from the list of a key |
| ScanSafety.UnboundedCleanBreaks | Base/grid_coprocessor/accounts-db/src/accounts_db.rs:2871-2884 | from every state with a clean that has no bound, allowed steps lead to a scan whose view the clean changes |
| AccountsIndex.AccountsIndex.AddRoot | Base/grid_coprocessor/accounts-db/src/accounts_index.rs:1919-1926 | the step of the protocol that adds a root |
| AccountsIndex.AccountsIndex.CleanDeadSlot | Base/grid_coprocessor/accounts-db/src/accounts_index.rs:1947-1961 | the step that forgets a root, and whether it was one |
| AccountsIndex.AccountsIndex.Get | Base/grid_coprocessor/accounts-db/src/accounts_index.rs:1433-1455 | the lookup of the key's list, nothing if the key is not indexed |
| AccountsIndex.AccountsIndex.Upsert | Base/grid_coprocessor/accounts-db/src/accounts_index.rs:1749-1784 | the step that stores a version, what it reclaims and whether a reference is to be added |
| AccountsIndex.AccountsIndex.CleanRootedEntries | Base/grid_coprocessor/accounts-db/src/accounts_index.rs:1851-1875 | the step that cleans one key; a key without entries leaves the index |
| AccountsIndex.AccountsIndex.BeginScan | Base/grid_coprocessor/accounts-db/src/accounts_index.rs:802-916 | refuses removed banks, pins the highest root, keeps the ancestors exactly if this root is one of them |
| AccountsIndex.AccountsIndex.FinishScan | Base/grid_coprocessor/accounts-db/src/accounts_index.rs:993-1018 | releases the pin, which is there, and fails exactly if the bank was removed |
| AccountsIndex.AccountsIndex.MarkBanksRemoved | Base/grid_coprocessor/accounts-db/src/accounts_db.rs:6010-6095 | the step that marks banks before their slots are purged |
| RollingBitField.RollingBitField.constructor | Base/grid_coprocessor/accounts-db/src/rolling_bit_field.rs:44-56 | an empty set |
| RollingBitField.RollingBitField.Contains | Base/grid_coprocessor/accounts-db/src/rolling_bit_field.rs:206-225 | membership, in the window or in the excess |
| RollingBitField.RollingBitField.Purge | Base/grid_coprocessor/accounts-db/src/rolling_bit_field.rs:179-204 | the window starts at a set bit again and loses none |
| RollingBitField.RollingBitField.Remove | Base/grid_coprocessor/accounts-db/src/rolling_bit_field.rs:149-172 | removes the key and tells whether it was there |
| RollingBitField.RollingBitField.MakeRoom | Base/grid_coprocessor/accounts-db/src/rolling_bit_field.rs:96-119 | keys that do not fit go to the excess until the new one fits; the set stays |
| RollingBitField.RollingBitField.InsertBelow | Base/grid_coprocessor/accounts-db/src/rolling_bit_field.rs:87-92 | a key below the window |
| RollingBitField.RollingBitField.InsertBeyond | Base/grid_coprocessor/accounts-db/src/rolling_bit_field.rs:95-146 | a key beyond the window |
| RollingBitField.RollingBitField.InsertFirst | Base/grid_coprocessor/accounts-db/src/rolling_bit_field.rs:84-86 | a key while the window is empty |
| RollingBitField.RollingBitField.Insert | Base/grid_coprocessor/accounts-db/src/rolling_bit_field.rs:83-146 | adds the key and counts right exactly if the window is not empty or the key is above all excess keys |
| RollingBitField.RollingBitField.InOrderIsProper | Base/grid_coprocessor/accounts-db/src/accounts_index.rs:1919-1926 | roots added in order always meet that condition |
| RollingBitField.MiscountExample | Base/grid_coprocessor/accounts-db/src/rolling_bit_field.rs:83-146 | a concrete sequence after which the count is wrong |
| IndexIterator.Range | Base/grid_coprocessor/accounts-db/src/in_mem_accounts_index.rs:224-242 | the keys of one bin in the range, each once, sorted if asked |
| IndexIterator.RangeMeans | Base/grid_coprocessor/accounts-db/src/in_mem_accounts_index.rs:224-242 | which keys each kind of bound lets in |
| IndexIterator.NothingOutsideBins | Base/grid_coprocessor/accounts-db/src/accounts_index.rs:539-563 | no key of the range is in a bin that is skipped |
| IndexIterator.FillSorted | Base/grid_coprocessor/accounts-db/src/accounts_index.rs:606-640 | the lowest keys of the range, ascending, up to a batch; all of them if fewer |
| IndexIterator.FillUnsorted | Base/grid_coprocessor/accounts-db/src/accounts_index.rs:606-640 | all keys of the range, each once |
| IndexIterator.AccountsIndexIterator.Next | Base/grid_coprocessor/accounts-db/src/accounts_index.rs:606-640 | a non-empty chunk of what is left, the lowest in sorted order, and nothing exactly at the end |
| IndexIterator.DoScanAccounts | Base/grid_coprocessor/accounts-db/src/accounts_index.rs:1038-1096 | ends, having called back exactly the versions that lookups find for the keys of the range, each once, ascending if sorted |
| IndexIterator.ScanMatchesGet | Base/grid_coprocessor/accounts-db/src/accounts_index.rs:1038-1096 | a version is called back exactly if its key is in the range and a lookup finds it |
| ConcurrentScan.ScanChunkOverTime | Base/grid_coprocessor/accounts-db/src/accounts_index.rs:1061-1081 | one call for each key of a chunk that is seen, whenever it is looked up |
| ConcurrentScan.TakeChunk | Base/grid_coprocessor/accounts-db/src/accounts_index.rs:606-640 | a chunk taken at any time passes no key that is seen, so the keys so far are all those behind the start |
| ConcurrentScan.ScanOverTime | Base/grid_coprocessor/accounts-db/src/accounts_index.rs:1038-1096 | the loop ends and calls back exactly the keys that are found at all times, on an index that changes between its reads |
| ConcurrentScan.CheckedScan | Base/grid_coprocessor/accounts-db/src/accounts_index.rs:789-1019 | on every run, with any allowed steps between chunks and between lookups: a scan whose bank is not removed calls back exactly the keys of the range that it saw at its start, each once, ascending if sorted, with the version of the slot it saw |
| DuplicateRemoval.SortIsStable | Base/grid_coprocessor/accounts-db/src/accounts_index.rs:1603-1605 | sorted, with the items of each pubkey unchanged and in order |
| DuplicateRemoval.KeptOfKey | Base/grid_coprocessor/accounts-db/src/accounts_index.rs:1607-1630 | of each pubkey the last item is kept |
| DuplicateRemoval.DroppedOfKey | Base/grid_coprocessor/accounts-db/src/accounts_index.rs:1617-1621 | of each pubkey the earlier items are dropped, latest first |
| DuplicateRemoval.Compact | Base/grid_coprocessor/accounts-db/src/accounts_index.rs:1607-1631 | the backward write cursor never overwrites an unread item: the tail is exactly what is kept |
| DuplicateRemoval.RemoveOlderDuplicatePubkeys | Base/grid_coprocessor/accounts-db/src/accounts_index.rs:1595-1634 | strictly ascending, the last item of each pubkey; the others are returned, nothing exactly if no pubkey repeats |
| DuplicateRemoval.NothingLost | Base/grid_coprocessor/accounts-db/src/accounts_index.rs:1595-1634 | kept and returned items are together the given ones |
| DuplicateRemoval.LastIsKept | Base/grid_coprocessor/accounts-db/src/accounts_index.rs:1595-1634 | an item behind which its pubkey does not come again is the one kept of this pubkey |
| Partition.PartitionWidth | Base/grid_coprocessor/accounts-db/src/accounts_partition.rs:244-245 | 2^64 / n, computed without leaving 64 bits |
| Partition.Boundary | Base/grid_coprocessor/accounts-db/src/accounts_partition.rs:246-258 | the products that are boundaries fit in 64 bits |
| Partition.PartitionOfIs | Base/grid_coprocessor/accounts-db/src/accounts_partition.rs:244-258 | partition i is the i-th run of 2^64 / n prefixes; the last has what is left over |
| Partition.HoldsIs | Base/grid_coprocessor/accounts-db/src/accounts_partition.rs:225-335 | what a pair of indexes stands for, with the single pubkey of equal pairs |
| Partition.PubkeyRangeFromPartition | Base/grid_coprocessor/accounts-db/src/accounts_partition.rs:225-335 | the range holds exactly the pubkeys of the partitions after the first index up to the second; so the single partitions are disjoint and cover all pubkeys |
| Partition.InverseExactly | Base/grid_coprocessor/accounts-db/src/accounts_partition.rs:344-376 | partition_from_pubkey gives the covering partition exactly for prefixes below n * width and for the last prefix |
| Partition.InverseEverywhere | Base/grid_coprocessor/accounts-db/src/accounts_partition.rs:344-376 | so it is the inverse for all pubkeys exactly if 2^64 mod n is at most 1 |
| Partition.InverseFails | Base/grid_coprocessor/accounts-db/src/accounts_partition.rs:344-376 | with 432000 partitions a pubkey is put one past the last |
| Partition.UnsettledGoBehind | Base/grid_coprocessor/accounts-db/src/accounts_partition.rs:344-376 | for n up to 2^32 all other prefixes give n |
| Partition.BucketsSuffice | Base/grid_coprocessor/accounts-db/src/accounts_partition.rs:398-415 | n + 1 buckets are enough for all pubkeys exactly if 2^64 mod n is at most the width plus 1 |
| Partition.BucketsSufficeBelow | Base/grid_coprocessor/accounts-db/src/accounts_partition.rs:398-415 | which holds for n up to 2^32 |
| Partition.RentPayingAccountsByPartition.constructor | Base/grid_coprocessor/accounts-db/src/accounts_partition.rs:398-408 | empty buckets |
| Partition.RentPayingAccountsByPartition.AddAccount | Base/grid_coprocessor/accounts-db/src/accounts_partition.rs:409-415 | adds the account to its bucket and no other |
| Partition.RentPayingAccountsByPartition.GetPubkeysInPartitionIndex | Base/grid_coprocessor/accounts-db/src/accounts_partition.rs:416-424 | the accounts added that have this index, none behind the last bucket |
| PartitionWalk.GetPartitions | Base/grid_coprocessor/accounts-db/src/accounts_partition.rs:184-219 | the pushes give the list of index pairs |
| PartitionWalk.CoveredIs | Base/grid_coprocessor/accounts-db/src/accounts_partition.rs:141-219 | which end indexes a step covers, in order |
| PartitionWalk.StepExactly | Base/grid_coprocessor/accounts-db/src/accounts_partition.rs:184-219 | a step covers the residues of its slots exactly if it stays in its cycle or enters the next one behind index 0 or from the last index |
| PartitionWalk.StepEnds | Base/grid_coprocessor/accounts-db/src/accounts_partition.rs:184-219 | a step covers at least one index and ends at that of its slot |
| PartitionWalk.StepGoesOnExactly | Base/grid_coprocessor/accounts-db/src/accounts_partition.rs:184-219 | the indexes a step covers go on one by one from the parent's, round the end, exactly if it does not land on index 0 of a later cycle from an index other than the last |
| PartitionWalk.StepAccounts | Base/grid_coprocessor/accounts-db/src/accounts_partition.rs:184-219 | the slots of a step are those covered, those left out and the whole cycles skipped, which are counted; it is exact exactly if nothing is left out or skipped |
| PartitionWalk.WalkGoesOnExactly | Base/grid_coprocessor/accounts-db/src/accounts_partition.rs:184-219 | every chain, over however many cycles it jumps, goes round the indexes without a gap or repeat exactly if no step lands on index 0 of a later cycle from an index other than the last; it ends at the index of its last slot |
| PartitionWalk.WalkMissesOnlyLandings | Base/grid_coprocessor/accounts-db/src/accounts_partition.rs:184-219 | every chain, with what its landings on index 0 left out put back in, goes round the indexes without a gap |
| PartitionWalk.WalkExactly | Base/grid_coprocessor/accounts-db/src/accounts_partition.rs:141-219 | a chain covers the residues of all its slots consecutively, with no repeat or omission, exactly if each step does |
| PartitionWalk.LandingDrops | Base/grid_coprocessor/accounts-db/src/accounts_partition.rs:184-219 | a step onto index 0 of a later cycle covers index 0 only and leaves out exactly the indexes behind the parent's up to the last |
| PartitionWalk.RangeMatchesEndIndexes | Base/grid_coprocessor/accounts-db/src/accounts_partition.rs:141-151 | the range of a pair has the pubkeys of the end indexes of the pair |
| PartitionWalk.OnceEachCycle | Base/grid_coprocessor/accounts-db/src/accounts_partition.rs:141-335 | such a chain visits every pubkey in each cycle of n slots, all but the very last pubkey exactly once |
| AppendVec.AlignIsNext | Base/grid_coprocessor/accounts-db/src/accounts_file.rs:24-29 | the next multiple of 8 |
| AppendVec.ImageIs | Base/grid_coprocessor/accounts-db/src/account_storage/meta.rs:237-261 | the place of each field in a stored entry |
| AppendVec.LeastByteFirst | Base/grid_coprocessor/accounts-db/src/append_vec.rs:584-619 | numbers are stored with the least byte first |
| AppendVec.ReadsEntry | Base/grid_coprocessor/accounts-db/src/append_vec.rs:480-497 | an entry that lies in the file is read, field by field |
| AppendVec.ReadIsEntry | Base/grid_coprocessor/accounts-db/src/append_vec.rs:480-497 | whatever is read at a boundary is an entry that lies there |
| AppendVec.ReadsLayout | Base/grid_coprocessor/accounts-db/src/append_vec.rs:550-557 | entries that follow each other are read back whole, and reading stops at the end |
| AppendVec.ReadIsLayout | Base/grid_coprocessor/accounts-db/src/append_vec.rs:387-406 | what is read is the whole file exactly if reading stops at its end |
| AppendVec.AppendVec.constructor | Base/grid_coprocessor/accounts-db/src/append_vec.rs:232-285 | an empty file |
| AppendVec.AppendVec.AppendPtr | Base/grid_coprocessor/accounts-db/src/append_vec.rs:430-441 | copies to the next boundary and changes no other byte |
| AppendVec.AppendVec.AppendPtrsLocked | Base/grid_coprocessor/accounts-db/src/append_vec.rs:447-464 | copies all values, or changes nothing exactly if they do not fit |
| AppendVec.PlacesEntry | Base/grid_coprocessor/accounts-db/src/append_vec.rs:447-464 | the four parts copied are an entry at the next boundary |
| AppendVec.AppendVec.AppendAccount | Base/grid_coprocessor/accounts-db/src/append_vec.rs:584-619 | an account behind a layout continues the layout; the bytes seen before stay |
| AppendVec.AppendVec.AppendWhileFits | Base/grid_coprocessor/accounts-db/src/append_vec.rs:579-620 | accounts are appended up to the first that does not fit |
| AppendVec.AppendVec.AppendAccounts | Base/grid_coprocessor/accounts-db/src/append_vec.rs:566-637 | written are the accounts behind the skipped ones up to the first that does not fit; the layout grows by them; offsets and aligned sizes are contiguous; earlier bytes stay |
| AppendVec.AppendedIsRead | Base/grid_coprocessor/accounts-db/src/append_vec.rs:480-497 | at each returned offset the account written there is read, whatever is appended later |
| AppendVec.EveryBatchIsRead | Base/grid_coprocessor/accounts-db/src/append_vec.rs:480-497 | after any batches, every offset that any of them returned reads the account written there |
| AppendVec.StoredIsRead | Base/grid_coprocessor/accounts-db/src/append_vec.rs:584-619 | at the offset returned for an account its own pubkey, hash, write version and fields are read, those of the default account if none was given, whatever is appended later |
| AppendVec.AppendedIsPacked | Base/grid_coprocessor/accounts-db/src/account_info.rs:127-187 | each returned offset packs into the index and is read back with the zero-lamport flag, whatever is appended later |
| AppendVec.AppendVec.Accounts | Base/grid_coprocessor/accounts-db/src/append_vec.rs:550-557 | lists what is read from an offset on |
| AppendVec.AppendVec.SanitizeLayoutAndLength | Base/grid_coprocessor/accounts-db/src/append_vec.rs:387-406 | accepts exactly the files that consist of sane entries, and counts them |
| AppendVec.WrittenIsSanitary | Base/grid_coprocessor/accounts-db/src/append_vec.rs:387-406 | a layout is accepted exactly if its entries are sane |
| AppendVec.EntryIsSane | Base/grid_coprocessor/accounts-db/src/append_vec.rs:149-162 | an account is stored sane exactly if it has lamports or is left out or default |
| AppendVec.SaneExactly | Base/grid_coprocessor/accounts-db/src/append_vec.rs:149-162 | sane entries are exactly those that are written if accounts without lamports are left out |
| AppendVec.NewFromFile | Base/grid_coprocessor/accounts-db/src/append_vec.rs:287-385 | which files are opened, and which error the others give |
| AppendVec.MatchesWhatIsRead | Base/grid_coprocessor/accounts-db/src/append_vec.rs:499-530 | the owner test judges by the first matching owner as reading the whole account would |
| AppendVec.MatchFailsExactly | Base/grid_coprocessor/accounts-db/src/append_vec.rs:499-530 | it fails exactly if the account part does not lie in the file |
| AccountInfo.PackingIsExact | Base/grid_coprocessor/accounts-db/src/account_info.rs:73-187 | packing works exactly for aligned offsets below the last eight bytes of 16 GiB, never meets the cached marker, and everything reads back |
| ShrinkProtocol.StepKeepsInv | Base/grid_coprocessor/accounts-db/src/account_storage.rs:155-253 | every step keeps the two maps and the shrinks consistent, also the removal of a slot that is shrunk |
| ShrinkProtocol.DropAssertionsHold | Base/grid_coprocessor/accounts-db/src/account_storage.rs:230-253 | of the assertions at the end of a shrink one always holds, the other exactly if the slot was not removed |
| ShrinkProtocol.DropSucceeds | Base/grid_coprocessor/accounts-db/src/account_storage.rs:155-253 | on every run a shrink whose slot is not removed since its start can be ended |
| ShrinkProtocol.NeverAnotherId | Base/grid_coprocessor/accounts-db/src/account_storage.rs:50-68 | no reader gets a store with another id |
| ShrinkProtocol.ReaderFindsExactly | Base/grid_coprocessor/accounts-db/src/account_storage.rs:50-68 | on every run a reader of a live store that was not in the map misses it exactly if its shrink ended before the second look and either another swapped it out before the third or the slot had been removed |
| ShrinkProtocol.OneDropIsSafe | Base/grid_coprocessor/accounts-db/src/account_storage.rs:50-68 | so a reader that at most one drop overlaps, of a slot that is not removed, finds it |
| ShrinkProtocol.TwoDropsMiss | Base/grid_coprocessor/accounts-db/src/account_storage.rs:50-68 | a concrete run with two drops in which the reader misses |
| ShrinkProtocol.AccountStorage.GetAccountStorageEntry | Base/grid_coprocessor/accounts-db/src/account_storage.rs:50-68 | undisturbed, it finds exactly the live stores |
| ShrinkProtocol.AccountStorage.InsertStore | Base/grid_coprocessor/accounts-db/src/account_storage.rs:132-146 | a store for a slot that has none; nothing else changes |
| ShrinkProtocol.AccountStorage.RemoveSlot | Base/grid_coprocessor/accounts-db/src/account_storage.rs:117-124 | takes the store of a slot away, shrunk or not |
| ShrinkProtocol.AccountStorage.ShrinkingInProgress | Base/grid_coprocessor/accounts-db/src/account_storage.rs:155-183 | old and new store are both live afterwards |
| ShrinkProtocol.AccountStorage.Drop | Base/grid_coprocessor/accounts-db/src/account_storage.rs:230-253 | where its assertions hold, the new store takes the old one's place, then leaves the second map |
| AccountLocks.HoldersDoNotClash | Base/grid_coprocessor/accounts-db/src/accounts.rs:532-562 | of any two holders neither writes what the other uses |
| AccountLocks.ConflictSeen | Base/grid_coprocessor/accounts-db/src/accounts.rs:538-549 | the table shows a conflict exactly if there is one with a holder |
| AccountLocks.AccountLocks.LockReadonly | Base/grid_coprocessor/accounts-db/src/accounts.rs:69-74 | one more reader, if there is one |
| AccountLocks.AccountLocks.UnlockReadonly | Base/grid_coprocessor/accounts-db/src/accounts.rs:76-84 | one reader less, the entry goes with the last |
| AccountLocks.AccountLocks.IsInUse | Base/grid_coprocessor/accounts-db/src/accounts.rs:538-549 | true exactly on a conflict with a holder |
| AccountLocks.AccountLocks.LockAccount | Base/grid_coprocessor/accounts-db/src/accounts.rs:532-562 | granted exactly without a conflict; a refusal changes nothing; counts match the holders |
| AccountLocks.AccountLocks.UnlockAccount | Base/grid_coprocessor/accounts-db/src/accounts.rs:564-576 | releases one holder; counts match the others |
| AccountLocks.AccountLocks.LockAccountsInner | Base/grid_coprocessor/accounts-db/src/accounts.rs:611-628 | each transaction of a batch meets the holders and those granted before it |
| AccountLocks.AnswersExactly | Base/grid_coprocessor/accounts-db/src/accounts.rs:611-628 | a rejected transaction keeps its error; another is granted exactly if it clashes with no holder and none granted before it |
| AccountLocks.AccountLocks.UnlockAccounts | Base/grid_coprocessor/accounts-db/src/accounts.rs:630-647 | releases the granted ones of the transactions that have a result |
| AccountLocks.ReleasableExactly | Base/grid_coprocessor/accounts-db/src/accounts.rs:631-647 | releases are possible exactly for transactions that hold, with repetitions |
| AccountLocks.ReleasingEverybody | Base/grid_coprocessor/accounts-db/src/accounts.rs:631-647 | releasing all leaves no holder |
| AccountLocks.GrantedAre | Base/grid_coprocessor/accounts-db/src/accounts.rs:637-646 | released are exactly the transactions with a granted result, in order and as often as they occur |
| AccountLocks.LockThenUnlock | Base/grid_coprocessor/accounts-db/src/accounts.rs:611-647 | locking a batch and unlocking it with the results leaves the holders of before |
| AccountLocks.LockThenUnlockEmpties | Base/grid_coprocessor/accounts-db/src/accounts.rs:611-647 | from an empty table, locking a batch and unlocking it with the results leaves both tables empty |
| AccountLocks.NobodyMeansEmpty | Base/grid_coprocessor/accounts-db/src/accounts.rs:49-52 | without holders both tables are empty |
| BlockhashQueue.LatestIsLast | Base/grid_coprocessor/accounts-db/src/blockhash_queue.rs:92-114 | reference: the index of a hash's latest registration |
| BlockhashQueue.RegisterMatches | Base/grid_coprocessor/accounts-db/src/blockhash_queue.rs:96-114 | a registration keeps: every recent hash is stored with its latest index, at most max_age + 1 entries, and only recent ones if no hash repeats |
| BlockhashQueue.OnlyRecentExactly | Base/grid_coprocessor/accounts-db/src/blockhash_queue.rs:96-114 | after a registration all stored hashes are recent exactly if the table was full or no other stored hash had reached the maximal age |
| BlockhashQueue.RepeatsKeepOldHash | Base/grid_coprocessor/accounts-db/src/blockhash_queue.rs:61-63 | a concrete run with repeats after which an old hash still counts as valid |
| BlockhashQueue.BlockhashQueue.constructor | Base/grid_coprocessor/accounts-db/src/blockhash_queue.rs:41-48 | an empty queue |
| BlockhashQueue.BlockhashQueue.IsHashValidForAge | Base/grid_coprocessor/accounts-db/src/blockhash_queue.rs:66-71 | for ages up to max_age: true exactly if the latest registration is at most that old |
| BlockhashQueue.BlockhashQueue.IsHashValid | Base/grid_coprocessor/accounts-db/src/blockhash_queue.rs:61-63 | true for recent hashes, and for no others if no hash repeats |
| BlockhashQueue.BlockhashQueue.GetHashAge | Base/grid_coprocessor/accounts-db/src/blockhash_queue.rs:73-77 | the age of the latest registration |
| BlockhashQueue.BlockhashQueue.GenesisHash | Base/grid_coprocessor/accounts-db/src/blockhash_queue.rs:79-90 | the hash gets index 0 and is the last one; on a queue without hashes this is the log with the genesis hash |
| BlockhashQueue.BlockhashQueue.RegisterHash | Base/grid_coprocessor/accounts-db/src/blockhash_queue.rs:96-114 | the next index goes to the hash; old hashes are dropped only from a full table |
| Decimal.PrintsValue | Base/grid_coprocessor/account-decoder/src/parse_token.rs:198-209 | the printed string reads as exactly amount / 10^decimals, without a leading zero unless the whole part is zero |
| Decimal.TrimmedPrintsValue | Base/grid_coprocessor/account-decoder/src/parse_token.rs:211-218 | so does the trimmed string, with no zero at the end of its fraction |
| Decimal.TrimmedIsShort | Base/grid_coprocessor/account-decoder/src/parse_token.rs:211-218 | it does not end in a point, nor in a zero behind a point |
| Decimal.ReadsOneWay | Base/grid_coprocessor/account-decoder/src/parse_token.rs:198-218 | a string reads as one decimal only |
| Decimal.PrintingIsInjective | Base/grid_coprocessor/account-decoder/src/parse_token.rs:198-218 | with equal decimals, different amounts print differently, trimmed or not |
| AccountsCache.LoadIsStable | Base/grid_coprocessor/accounts-db/src/accounts_cache.rs:228-249 | what a load returned is returned again, whatever the remote loader answers, until the key is stored or its slot removed |
| AccountsCache.HeldAfter | Base/grid_coprocessor/accounts-db/src/accounts_cache.rs:213-318 | what is held of a key after a store, a load or a removal |
| AccountsCache.SlotCacheInner.Insert | Base/grid_coprocessor/accounts-db/src/accounts_cache.rs:69-100 | the slot's byte count is the sum over its accounts, and the shared count changes by as much |
| AccountsCache.AccountsCache.StoreAccount | Base/grid_coprocessor/accounts-db/src/accounts_cache.rs:213-226 | stores in the slot's cache, a new one if needed; the shared count is the sum over all live slot caches |
| AccountsCache.AccountsCache.LoadAccount | Base/grid_coprocessor/accounts-db/src/accounts_cache.rs:228-249 | the cached account, else the remote answer, which is then cached |
| AccountsCache.AccountsCache.TakeSlot | Base/grid_coprocessor/accounts-db/src/accounts_cache.rs:272-274 | the slot leaves the table; its bytes count until it is dropped |
| AccountsCache.AccountsCache.TakeSlotsLe | Base/grid_coprocessor/accounts-db/src/accounts_cache.rs:308-318 | the slots up to a root leave the table |
| AccountsCache.AccountsCache.Drop | Base/grid_coprocessor/accounts-db/src/accounts_cache.rs:34-40 | the shared count loses the bytes of a dropped slot cache |

## Left out

- MerkleHasher.CalculateThreeLevelChunks: does not model overflow of fanout^4 in a machine word.
- AccountsIndex.AccountsIndex.Upsert: models the index as one map of slot lists; reference counts, secondary indexes and the bins of the index are not part of it.
- IndexIterator.DoScanAccounts: does not model the abort flag; the index content is fixed during this scan, and changes in `ConcurrentScan.CheckedScan`.
- ConcurrentScan.ScanChunkOverTime: looks up the list of a key when it comes to it, where the source holds on to the entry that came with the chunk; an entry that leaves the index and comes back in between is not told apart.
- ConcurrentScan.TakeChunk: a chunk is taken from all its bins at one moment, a bin-by-bin change of the index within one chunk is not modelled.
- ScanSafety.ScanSeesOneView: versions are moved within their slot, as a flush of the cache or a shrink does; a move to another slot that a scan sees, as ancient slots are packed together, is not an allowed step.
- AppendVec.AppendVec.AppendAccounts: the seven padding bytes of the account part, which Rust leaves open, are written as zero; readers ignore them.
- AppendVec.AppendVec.constructor: file creation and memory mapping are an array of bytes.
- AccountLocks.AccountLocks.LockAccount: reader counts are unbounded instead of 64 bits.
- BlockhashQueue.BlockhashQueue.RegisterHash: fee rates and timestamps of a hash are not stored.
- AccountsCache.AccountsCache.StoreAccount: operations come one after another; hashes, the frozen flag and the queue of unflushed roots are not modelled.
- The hash files (`AccountHashesFile`) and their memory maps: the hashes are sequences; only that they fit the reserved capacity is proved.
- Parallel execution of hash chunks, bins and scans, memory orderings and timing: chunks and bins are computed in order, protocols in atomic steps.
- In-memory and disk buckets of the index, aging and flushing: the index is its abstract content.
- Loading, storing and rewards above the index and the stores (`accounts_db.rs`, `bank.rs`): only the bound of a clean and the marking of removed banks are taken from there.
- Variable-cycle partitions and epoch schedules: only the fixed two-day cycle is walked.
- Account decoding other than the decimal printer, and all user interface and network code.
