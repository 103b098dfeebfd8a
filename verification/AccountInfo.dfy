/** Where an account is stored: a store and an offset packed into 31 bits, or the write cache. */
module AccountInfo {
  import opened Common

  const ALIGN_BOUNDARY_OFFSET: nat := 8
  const MAXIMUM_APPEND_VEC_FILE_SIZE: nat := 16 * 1024 * 1024 * 1024

  const U32_SIZE: nat := 0x1_0000_0000
  const B31_SIZE: nat := 0x8000_0000

  /** The illegal offset that marks an account in the write cache. */
  const CACHED_OFFSET: nat := B31_SIZE - 1

  const CACHE_VIRTUAL_STORAGE_ID: nat := U32_SIZE - 1

  datatype StorageLocation = AppendVec(storeId: nat, offset: nat) | Cached

  /** `packed` holds the reduced offset in its low 31 bits and the zero-lamport flag above them. */
  datatype AccountInfo = AccountInfo(storeId: nat, packed: nat) {

    function OffsetReduced(): (r: nat) { packed % B31_SIZE }

    predicate IsZeroLamport() { packed / B31_SIZE == 1 }

    predicate IsCached() { OffsetReduced() == CACHED_OFFSET }

    function Offset(): (r: nat) { OffsetReduced() * ALIGN_BOUNDARY_OFFSET }

    function Location(): (r: StorageLocation) {
      if IsCached() then Cached else AppendVec(storeId, Offset())
    }
  }

  function Pack(offsetReduced: nat, isZeroLamport: bool): (r: nat) {
    offsetReduced + if isZeroLamport then B31_SIZE else 0
  }

  /** `AccountInfo::new`; `None` where the source panics: the reduced offset is the sentinel, does
      not fit its 31 bits, or does not give the offset back. */
  function New(location: StorageLocation, lamports: nat): (r: Option<AccountInfo>)
  {
    match location
    case AppendVec(storeId, offset) =>
      var reduced := (offset / ALIGN_BOUNDARY_OFFSET) % U32_SIZE;
      if reduced == CACHED_OFFSET || reduced >= B31_SIZE || reduced * ALIGN_BOUNDARY_OFFSET != offset then None
      else Some(AccountInfo(storeId, Pack(reduced, lamports == 0)))
    case Cached => Some(AccountInfo(CACHE_VIRTUAL_STORAGE_ID, Pack(CACHED_OFFSET, lamports == 0)))
  }

  /** Packing works exactly for aligned offsets below the last eight bytes of the largest file, and
      then everything that was stored is read back. */
  lemma PackingIsExact(location: StorageLocation, lamports: nat)
    ensures New(location, lamports).Some? <==>
              location.Cached? || (location.offset % 8 == 0 && location.offset < 0x4_0000_0000 - 8)
    ensures New(location, lamports).Some? ==>
              var info := New(location, lamports).value;
              && info.Location() == location
              && (info.IsCached() <==> location.Cached?)
              && (info.IsZeroLamport() <==> lamports == 0)
              && info.packed < U32_SIZE
  {
    if location.AppendVec? {
      var q := location.offset / ALIGN_BOUNDARY_OFFSET;
      if q < U32_SIZE { assert q % U32_SIZE == q; }
    }
  }
}
