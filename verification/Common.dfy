/** Small definitions shared by the modules of the accounts database model. */
module Common {

  datatype Option<+T> = None | Some(value: T)

  const U64_MAX: nat := 0xFFFF_FFFF_FFFF_FFFF
  const U64_SIZE: nat := 0x1_0000_0000_0000_0000

  /** A 32-byte public key, ordered as the big-endian number its bytes spell. */
  type Pubkey = k: nat | k < PUBKEY_SIZE

  const PUBKEY_SIZE: nat := U64_SIZE * U64_SIZE * U64_SIZE * U64_SIZE

  type Slot = nat

  function Min(a: int, b: int): (r: int) {
    if a <= b then a else b
  }

  lemma {:induction false} SubsetSize<T>(a: set<T>, b: set<T>)
    requires a <= b
    ensures |a| <= |b|
  {
    if a != {} {
      var x :| x in a;
      SubsetSize(a - {x}, b - {x});
    }
  }
}
