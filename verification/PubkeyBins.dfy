/** The bin of a pubkey: its leading bits. */
module PubkeyBins {
  import opened Arith
  import opened Common
  import Dedup

  function Pow2(n: nat): (r: nat)
    ensures r > 0
  {
    if n == 0 then 1 else 2 * Pow2(n - 1)
  }

  lemma {:induction false} Pow2Add(a: nat, b: nat)
    ensures Pow2(a + b) == Pow2(a) * Pow2(b)
    decreases a
  {
    if a > 0 {
      Pow2Add(a - 1, b);
      Doubled(Pow2(a - 1), Pow2(b));
    }
  }

  lemma Doubled(a: nat, b: nat)
    ensures (2 * a) * b == 2 * (a * b)
  {
  }

  const MAX_BITS: nat := 24

  /** The number of values of the first three bytes of a pubkey, and of the other 29 bytes. */
  const LEADING: nat := 0x100_0000
  const REST: nat := U64_SIZE * U64_SIZE * U64_SIZE * 0x100_0000_0000

  /** pubkey_bins.rs: 2^bits bins, so the first three bytes are shifted right by 24 - bits. */
  function BinFromPubkey(bits: nat, key: Pubkey): (r: nat)
    requires bits <= MAX_BITS
  {
    Quotient(Quotient(key, REST), Pow2(MAX_BITS - bits))
  }

  lemma DivMonotone(a: nat, b: nat, c: nat)
    requires a <= b && c > 0
    ensures a / c <= b / c
  {
    DivBounds(a, c);
    DivBounds(b, c);
    MulGap(b / c, a / c, c);
  }

  lemma BinMonotone(bits: nat, j: Pubkey, k: Pubkey)
    requires bits <= MAX_BITS && j <= k
    ensures BinFromPubkey(bits, j) <= BinFromPubkey(bits, k)
  {
    DivMonotone(j, k, REST);
    DivMonotone(j / REST, k / REST, Pow2(MAX_BITS - bits));
  }

  lemma BinInRange(bits: nat, key: Pubkey)
    requires bits <= MAX_BITS
    ensures BinFromPubkey(bits, key) < Pow2(bits)
  {
    DivBelow(key, LEADING, REST);
    Pow2Add(bits, MAX_BITS - bits);
    Pow2Of24();
    DivBelow(key / REST, Pow2(bits), Pow2(MAX_BITS - bits));
  }

  lemma Pow2Of24()
    ensures Pow2(24) == LEADING
  {
    assert Pow2(8) == 256;
    Pow2Add(8, 8);
    Pow2Add(16, 8);
  }

  /** The bin is made of the leading bits: behind them are 24 - bits bits of the first three bytes and 29 bytes. */
  lemma BinIsLeadingBits(bits: nat, key: Pubkey)
    requires bits <= 24
    ensures LEADING * REST == PUBKEY_SIZE && REST * Pow2(24 - bits) > 0
    ensures BinFromPubkey(bits, key) == key / (REST * Pow2(24 - bits))
  {
    DivDiv(key, REST, Pow2(24 - bits));
  }

  /** Bins follow the order of pubkeys, and there are no others than 0 to 2^bits - 1. */
  lemma BinsFollowPubkeys(bits: nat)
    requires bits <= MAX_BITS
    ensures Dedup.Monotone((key: Pubkey) => BinFromPubkey(bits, key))
    ensures forall key: Pubkey :: BinFromPubkey(bits, key) < Pow2(bits)
  {
    forall j: Pubkey, k: Pubkey | j <= k ensures BinFromPubkey(bits, j) <= BinFromPubkey(bits, k) {
      BinMonotone(bits, j, k);
    }
    forall key: Pubkey ensures BinFromPubkey(bits, key) < Pow2(bits) {
      BinInRange(bits, key);
    }
  }
}
