/**
 * Rent partitions: the pubkeys are split by their first eight bytes into
 * `n` ranges, and every slot visits the ranges between its parent's index
 * and its own.
 */
module Partition {
  import opened Arith
  import opened Common

  /** The number of pubkeys with one 64-bit prefix. */
  const SUFFIX_SIZE: nat := U64_SIZE * U64_SIZE * U64_SIZE

  const PREFIX_MAX: nat := U64_MAX

  /** Start index, end index, partition count. */
  datatype Partition = Partition(start: nat, end: nat, count: nat) {
    ghost predicate Valid() { start <= end < count <= U64_MAX }

    /** A pair of equal indexes other than 0, 0 stands for no partition at all. */
    predicate IsNoop() { start == end && start != 0 }
  }

  function PrefixFromPubkey(k: Pubkey): (p: nat)
    ensures p <= PREFIX_MAX && p * SUFFIX_SIZE <= k < p * SUFFIX_SIZE + SUFFIX_SIZE
  {
    PrefixBounds(k);
    k / SUFFIX_SIZE
  }

  lemma PrefixBounds(k: Pubkey)
    ensures k / SUFFIX_SIZE <= PREFIX_MAX
    ensures k / SUFFIX_SIZE * SUFFIX_SIZE <= k < k / SUFFIX_SIZE * SUFFIX_SIZE + SUFFIX_SIZE
  {
    DivBounds(k, SUFFIX_SIZE);
    DivBelow(k, U64_SIZE, SUFFIX_SIZE);
  }

  /** The number of prefixes in a partition, computed without leaving 64 bits. */
  function PartitionWidth(n: nat): (w: nat)
    requires 1 <= n <= U64_MAX
    ensures w == U64_SIZE / n && w >= 1 && n * w <= U64_SIZE
    ensures n > 1 ==> w <= U64_MAX
  {
    WidthIsQuotient(n);
    (PREFIX_MAX - n + 1) / n + 1
  }

  lemma WidthIsQuotient(n: nat)
    requires 1 <= n <= U64_MAX
    ensures (PREFIX_MAX - n + 1) / n + 1 == U64_SIZE / n >= 1
    ensures n * (U64_SIZE / n) <= U64_SIZE
    ensures n > 1 ==> U64_SIZE / n <= U64_MAX
  {
    var q := (U64_SIZE - n) / n;
    DivBounds(U64_SIZE - n, n);
    assert (q + 1) * n == q * n + n;
    DivIs(U64_SIZE, n, q + 1);
    MulGap(2, n, q + 1);
  }

  /** The pubkeys whose bytes after the prefix are all zero, or all ones. */
  function First(prefix: nat): (r: Pubkey)
    requires prefix <= PREFIX_MAX
  {
    prefix * SUFFIX_SIZE
  }

  function Last(prefix: nat): (r: Pubkey)
    requires prefix <= PREFIX_MAX
  {
    prefix * SUFFIX_SIZE + SUFFIX_SIZE - 1
  }

  // ----- which partition a pubkey is in -----

  /** The prefixes are cut into n runs of one width; what is left over is in the last. */
  function PartitionOf(k: Pubkey, n: nat): (i: nat)
    requires 1 <= n <= U64_MAX
    ensures i < n
  {
    var q := PrefixFromPubkey(k) / PartitionWidth(n);
    if q < n then q else n - 1
  }

  /** The boundary in front of partition i. */
  function Boundary(n: nat, i: nat): (b: nat)
    requires 1 <= n <= U64_MAX && i < n
    ensures b <= PREFIX_MAX && (i > 0 ==> b > 0)
  {
    MulGap(i, n, PartitionWidth(n));
    MulGap(1, i, PartitionWidth(n));
    i * PartitionWidth(n)
  }

  /**
   * A pair of indexes holds the partitions after its first index, up to its
   * second; 0, 0 holds partition 0, and other equal pairs hold a single key.
   */
  ghost predicate Holds(p: Partition, k: Pubkey)
    requires p.Valid()
  {
    if p.start == 0 && p.end == 0 then PartitionOf(k, p.count) == 0
    else if p.IsNoop() then k == NoopKey(p)
    else p.start < PartitionOf(k, p.count) <= p.end
  }

  function NoopKey(p: Partition): (r: Pubkey)
    requires p.Valid() && p.IsNoop()
  {
    if p.end + 1 == p.count then PUBKEY_SIZE - 1 else First(Boundary(p.count, p.end + 1))
  }

  lemma BetweenPrefixes(k: Pubkey, a: nat, b: nat)
    requires a <= PREFIX_MAX && b <= PREFIX_MAX
    ensures First(a) <= k <= Last(b) <==> a <= PrefixFromPubkey(k) <= b
  {
    MulGap(a, PrefixFromPubkey(k), SUFFIX_SIZE);
    MulGap(PrefixFromPubkey(k), a, SUFFIX_SIZE);
    MulGap(b, PrefixFromPubkey(k), SUFFIX_SIZE);
    MulGap(PrefixFromPubkey(k), b, SUFFIX_SIZE);
  }

  lemma AboveBoundary(k: Pubkey, n: nat, i: nat)
    requires 1 <= n <= U64_MAX && i < n
    ensures i <= PartitionOf(k, n) <==> Boundary(n, i) <= PrefixFromPubkey(k)
  {
    QuotientAbove(PrefixFromPubkey(k), PartitionWidth(n), i);
  }

  /** A pubkey is in the run that its first eight bytes are in; the last run has what is left over. */
  lemma PartitionOfIs(k: Pubkey, n: nat, i: nat)
    requires 1 <= n <= U64_MAX && i < n
    ensures PartitionOf(k, n) == i <==>
              && i * (U64_SIZE / n) <= PrefixFromPubkey(k)
              && (i == n - 1 || PrefixFromPubkey(k) < (i + 1) * (U64_SIZE / n))
  {
    QuotientAbove(PrefixFromPubkey(k), PartitionWidth(n), i);
    QuotientAbove(PrefixFromPubkey(k), PartitionWidth(n), i + 1);
  }

  /** What a pair of indexes holds, case by case. */
  lemma HoldsIs(p: Partition, k: Pubkey)
    requires p.Valid()
    ensures p.end == 0 ==> (Holds(p, k) <==> PartitionOf(k, p.count) == 0)
    ensures p.start < p.end ==> (Holds(p, k) <==> p.start < PartitionOf(k, p.count) <= p.end)
    ensures p.start == p.end > 0 && p.end == p.count - 1 ==> (Holds(p, k) <==> k == PUBKEY_SIZE - 1)
    ensures p.start == p.end > 0 && p.end < p.count - 1 ==>
              (Holds(p, k) <==> k == (p.end + 1) * (U64_SIZE / p.count) * (U64_SIZE * U64_SIZE * U64_SIZE))
  {
  }

  lemma QuotientAbove(x: nat, w: nat, i: nat)
    requires w > 0
    ensures i <= x / w <==> i * w <= x
  {
    DivBounds(x, w);
    MulGap(i, x / w, w);
    MulGap(x / w, i, w);
  }

  lemma HoldsUpTo(k: Pubkey, p: Partition)
    requires p.Valid() && !p.IsNoop() && p.count > 1
    ensures p.end == 0 ==> (Holds(p, k) <==> PrefixFromPubkey(k) < Boundary(p.count, 1))
    ensures p.end > 0 && p.end + 1 == p.count ==>
              (Holds(p, k) <==> Boundary(p.count, p.start + 1) <= PrefixFromPubkey(k))
    ensures p.end > 0 && p.end + 1 < p.count ==>
              (Holds(p, k) <==>
               Boundary(p.count, p.start + 1) <= PrefixFromPubkey(k) < Boundary(p.count, p.end + 1))
  {
    AboveBoundary(k, p.count, p.start + 1);
    if p.end + 1 < p.count { AboveBoundary(k, p.count, p.end + 1); }
  }

  /** First and last pubkey of a pair of indexes. */
  method PubkeyRangeFromPartition(p: Partition) returns (first: Pubkey, last: Pubkey)
    requires p.Valid()
    ensures forall k: Pubkey :: first <= k <= last <==> Holds(p, k)
  {
    if p.count == 1 { return 0, PUBKEY_SIZE - 1; }
    var startPrefix := if p.start == 0 && p.end == 0 then 0
                       else if p.start + 1 == p.count then PREFIX_MAX
                       else Boundary(p.count, p.start + 1);
    var endPrefix := if p.end + 1 == p.count then PREFIX_MAX else Boundary(p.count, p.end + 1) - 1;
    first, last := First(startPrefix), Last(endPrefix);
    if p.start != 0 && p.start == p.end {
      if endPrefix == PREFIX_MAX {
        startPrefix := endPrefix;
        first := Last(startPrefix);
      } else {
        endPrefix := startPrefix;
        last := First(endPrefix);
      }
    } else {
      forall k: Pubkey ensures first <= k <= last <==> Holds(p, k) {
        BetweenPrefixes(k, startPrefix, endPrefix);
        HoldsUpTo(k, p);
      }
    }
  }

  // ----- from a pubkey back to its partition -----

  /** The prefixes behind n whole widths. */
  function Leftover(n: nat): (r: nat)
    requires 1 <= n <= U64_MAX
    ensures r < n && n * PartitionWidth(n) + r == U64_SIZE
  {
    U64_SIZE % n
  }

  function PartitionFromPubkey(k: Pubkey, n: nat): (i: nat)
    requires 1 <= n <= U64_MAX
  {
    if n == 1 then 0 else
    var width := PartitionWidth(n);
    var prefix := PrefixFromPubkey(k);
    if prefix == 0 then 0
    else if prefix == PREFIX_MAX then n - 1
    else
      var result := Quotient(prefix + 1, width);
      if (prefix + 1) % width == 0 then if result == 0 then 0 else result - 1 else result
  }

  /** The adjusted quotient of the next prefix is the quotient of the prefix. */
  lemma AdjustedQuotient(x: nat, w: nat)
    requires w > 0
    ensures var q := (x + 1) / w; x / w == if (x + 1) % w == 0 then if q == 0 then 0 else q - 1 else q
  {
    var q := (x + 1) / w;
    assert x + 1 == q * w + (x + 1) % w;
    if (x + 1) % w == 0 {
      MulGap(q, 0, w);
      assert q * w == (q - 1) * w + w;
      DivIs(x, w, q - 1);
    } else {
      DivIs(x, w, q);
    }
  }

  lemma FromPubkeyIsQuotient(k: Pubkey, n: nat)
    requires 1 < n <= U64_MAX && PrefixFromPubkey(k) != PREFIX_MAX
    ensures PartitionFromPubkey(k, n) == PrefixFromPubkey(k) / PartitionWidth(n)
  {
    AdjustedQuotient(PrefixFromPubkey(k), PartitionWidth(n));
    DivIs(0, PartitionWidth(n), 0);
  }

  /** The prefix lies in a whole width, or is the very last one. */
  predicate Settled(k: Pubkey, n: nat)
    requires 1 <= n <= U64_MAX
  {
    var x := PrefixFromPubkey(k);
    x < n * PartitionWidth(n) || x == PREFIX_MAX
  }

  /** It finds the partition of a pubkey exactly on the settled prefixes. */
  lemma InverseExactly(k: Pubkey, n: nat)
    requires 1 <= n <= U64_MAX
    ensures PartitionFromPubkey(k, n) == PartitionOf(k, n) <==> Settled(k, n)
  {
    var x, w := PrefixFromPubkey(k), PartitionWidth(n);
    QuotientAbove(x, w, n);
    if n > 1 {
      if x == PREFIX_MAX {
        assert n * w == (n - 1) * w + w;
        QuotientAbove(x, w, n - 1);
      } else {
        FromPubkeyIsQuotient(k, n);
      }
    } else {
      DivBelow(x, 1, w);
    }
  }

  /** It does so for every pubkey exactly when at most one prefix is left over. */
  lemma InverseEverywhere(n: nat)
    requires 1 <= n <= U64_MAX
    ensures (forall k: Pubkey :: PartitionFromPubkey(k, n) == PartitionOf(k, n)) <==> Leftover(n) <= 1
  {
    if Leftover(n) <= 1 {
      forall k: Pubkey ensures PartitionFromPubkey(k, n) == PartitionOf(k, n) { InverseExactly(k, n); }
    } else {
      var k: Pubkey := First(n * PartitionWidth(n));
      PrefixOfFirst(n * PartitionWidth(n));
      InverseExactly(k, n);
    }
  }

  lemma PrefixOfFirst(prefix: nat)
    requires prefix <= PREFIX_MAX
    ensures PrefixFromPubkey(First(prefix)) == prefix
  {
    DivIs(First(prefix), SUFFIX_SIZE, prefix);
  }

  /** With two days of slots, the first key behind the whole widths is put past the last partition. */
  lemma InverseFails(n: nat, k: Pubkey)
    requires n == 432000 && k == First(n * PartitionWidth(n))
    ensures PartitionOf(k, n) == n - 1 && PartitionFromPubkey(k, n) == n
  {
    var prefix := n * PartitionWidth(n);
    assert Leftover(n) == 111616;
    PrefixOfFirst(prefix);
    FromPubkeyIsQuotient(k, n);
    DivIs(prefix, PartitionWidth(n), n);
  }

  /** Buckets 0 to n are enough for every pubkey exactly when this many prefixes are left over. */
  lemma BucketsSuffice(n: nat)
    requires 1 <= n <= U64_MAX
    ensures (forall k: Pubkey :: PartitionFromPubkey(k, n) <= n) <==> Leftover(n) <= PartitionWidth(n) + 1
  {
    var w := PartitionWidth(n);
    assert (n + 1) * w == n * w + w;
    if Leftover(n) <= w + 1 {
      forall k: Pubkey ensures PartitionFromPubkey(k, n) <= n {
        var x := PrefixFromPubkey(k);
        if n > 1 && x != PREFIX_MAX {
          FromPubkeyIsQuotient(k, n);
          DivBelow(x, n + 1, w);
        }
      }
    } else {
      var prefix := (n + 1) * w;
      PrefixOfFirst(prefix);
      FromPubkeyIsQuotient(First(prefix), n);
      DivIs(prefix, w, n + 1);
      assert PartitionFromPubkey(First(prefix), n) > n;
    }
  }

  lemma BucketsSufficeBelow(n: nat)
    requires 1 <= n <= 0x1_0000_0000
    ensures Leftover(n) <= PartitionWidth(n)
  {
    MulGap(n, 0x1_0000_0000, 0x1_0000_0000);
    QuotientAbove(U64_SIZE, n, 0x1_0000_0000);
  }

  /** Up to 2^32 partitions, the pubkeys that are not settled all go to the bucket behind the last. */
  lemma UnsettledGoBehind(k: Pubkey, n: nat)
    requires 1 <= n <= 0x1_0000_0000 && !Settled(k, n)
    ensures PartitionFromPubkey(k, n) == n
  {
    BucketsSufficeBelow(n);
    var w := PartitionWidth(n);
    assert (n + 1) * w == n * w + w;
    FromPubkeyIsQuotient(k, n);
    DivIs(PrefixFromPubkey(k), w, n);
  }

  /** The accounts that may pay rent, by partition. */
  class RentPayingAccountsByPartition {
    const partitionCount: nat
    var accounts: seq<set<Pubkey>>

    ghost predicate Valid()
      reads this
    {
      && 1 <= partitionCount <= U64_MAX
      && |accounts| == partitionCount + 1
      && forall i, k :: 0 <= i < |accounts| && k in accounts[i] ==> PartitionFromPubkey(k, partitionCount) == i
    }

    /** All the accounts added so far. */
    ghost predicate Has(k: Pubkey)
      reads this
      requires Valid()
    {
      exists i :: 0 <= i < |accounts| && k in accounts[i]
    }

    constructor (slotsPerEpoch: nat)
      requires 1 <= slotsPerEpoch <= U64_MAX
      ensures Valid() && partitionCount == slotsPerEpoch
      ensures forall k: Pubkey :: !Has(k)
    {
      partitionCount := slotsPerEpoch;
      accounts := seq(slotsPerEpoch + 1, _ => {});
    }

    method AddAccount(k: Pubkey)
      requires Valid() && PartitionFromPubkey(k, partitionCount) <= partitionCount
      modifies this
      ensures Valid()
      ensures forall x: Pubkey :: Has(x) <==> x == k || old(Has(x))
    {
      var i := PartitionFromPubkey(k, partitionCount);
      ghost var before := accounts;
      accounts := accounts[i := accounts[i] + {k}];
      assert k in accounts[i];
      forall x: Pubkey | old(Has(x)) ensures Has(x) {
        var j :| 0 <= j < |before| && x in before[j];
        assert x in accounts[j];
      }
    }

    /** The accounts of one partition index; none behind the last bucket. */
    method GetPubkeysInPartitionIndex(i: nat) returns (keys: set<Pubkey>)
      requires Valid()
      ensures forall k: Pubkey :: k in keys <==> Has(k) && PartitionFromPubkey(k, partitionCount) == i
    {
      keys := if i < |accounts| then accounts[i] else {};
    }
  }
}
