/** The accounts hash: the winners of all bins, their lamports, and the Merkle root of their hashes. */
module HashCalculation {
  import opened Common
  import opened SlotGroups
  import opened Merge
  import opened Dedup
  import CumulativeOffsets
  import MerkleHasher
  import MerkleTree

  /** Takes the smallest key out of the working set and moves its group on. */
  method PopItem<H>(groups: seq<seq<Item<H>>>, bin: Pubkey -> nat, b: nat, ws0: seq<Pointer>,
                    ghost v: View<H>, ghost pos0: seq<nat>, ghost out: seq<Item<H>>, ghost low: int)
    returns (item: Item<H>, ws: seq<Pointer>, ghost pos: seq<nat>)
    requires v.groups == groups && Shows(v, bin, b) && v.Inv(ws0, pos0, None, 0, low)
    requires Delivered(v, bin, b, out, low)
    requires ws0 != []
    ensures v.Inv(ws, pos, None, 0, item.pubkey)
    ensures Delivered(v, bin, b, out + [item], item.pubkey)
    ensures 0 <= v.Remaining(pos, |pos|) < v.Remaining(pos0, |pos0|)
  {
    var pointer := ws0[|ws0| - 1];
    var next;
    item, next := GetItem(groups, bin, b, pointer, v);
    DeliverOne(v, bin, b, ws0, pos0, out, low, item);
    v.Pop(ws0, pos0, low);
    ghost var pos1;
    next, pos1 := MoveOn(groups, bin, b, pointer, v, pos0);
    ws, pos := AddNextItem(groups, bin, b, next, ws0[..|ws0| - 1], v, pos1, pointer.group, 0, item.pubkey);
    v.RemainingNonNegative(pos, |pos|);
  }

  lemma NothingDelivered<H>(v: View<H>, bin: Pubkey -> nat, b: nat)
    requires v.Valid()
    ensures Delivered(v, bin, b, [], -1)
  {
  }

  /** The hashes and lamports of winners; `None` if the lamports overflow. */
  ghost function Outcome<H>(out: seq<Item<H>>, zero: ZeroLamportAccounts,
                            pubkeyHash: Pubkey -> H): (r: Option<(seq<H>, nat)>)
  {
    if SumLamports(out) <= U64_MAX then Some((Emit(out, zero, pubkeyHash), SumLamports(out))) else None
  }

  /** One worker. The loop pops the smallest key until the working set is empty. A sum beyond 64
      bits is a panic in the source: the result is then `None`. */
  method DeDupAccountsInParallel<H>(groups: seq<seq<Item<H>>>, bin: Pubkey -> nat, b: nat, bins: nat,
                                    zero: ZeroLamportAccounts, pubkeyHash: Pubkey -> H)
    returns (result: Option<(seq<H>, nat)>, maxInclusiveNumPubkeys: nat, ghost out: seq<Item<H>>)
    requires SortedGroups(groups) && Monotone(bin)
    requires b < bins
    ensures maxInclusiveNumPubkeys == ItemsFrom(groups, bin, b, 0)
    ensures result.Some? ==> |result.value.0| <= maxInclusiveNumPubkeys
    ensures IsBinWinners(groups, bin, b, out) && result == Outcome(out, zero, pubkeyHash)
    ensures result.None? <==> SumLamports(out) > 0xffff_ffff_ffff_ffff
    ensures exists w :: IsBinWinners(groups, bin, b, w) && result == Outcome(w, zero, pubkeyHash)
  {
    ghost var v := ViewOf(groups, bin, b);
    ghost var pos: seq<nat>;
    var ws;
    ws, maxInclusiveNumPubkeys, pos := InitializeDedupWorkingSet(groups, bin, b, bins, v);
    v.RemainingNonNegative(pos, |pos|);
    var hashes: seq<H> := [];
    var overallSum := 0;
    ghost var low: int := -1;
    out := [];
    NothingDelivered(v, bin, b);
    while |ws| > 0
      invariant v.Inv(ws, pos, None, 0, low) && Delivered(v, bin, b, out, low)
      invariant hashes == Emit(out, zero, pubkeyHash) && overallSum == SumLamports(out)
      invariant 0 <= v.Remaining(pos, |pos|) && |out| + v.Remaining(pos, |pos|) <= maxInclusiveNumPubkeys
      decreases v.Remaining(pos, |pos|)
    {
      var item;
      item, ws, pos := PopItem(groups, bin, b, ws, v, pos, out, low);
      // a hash always fits in the file, which was sized before the loop
      EmitAtMostOneEach(out, zero, pubkeyHash);
      assert |hashes| < maxInclusiveNumPubkeys;
      hashes := hashes + EmitOne(item, zero, pubkeyHash);
      overallSum := overallSum + item.lamports;
      EmitAppend(out, item, zero, pubkeyHash);
      out, low := out + [item], item.pubkey;
    }
    AllDelivered(v, bin, b, pos, out, low);
    EmitAtMostOneEach(out, zero, pubkeyHash);
    result := if overallSum <= U64_MAX then Some((hashes, overallSum)) else None;
  }

  /** The winners of the bins below n. */
  ghost predicate PrefixWinners<H>(groups: seq<seq<Item<H>>>, bin: Pubkey -> nat, n: nat, out: seq<Item<H>>) {
    && AscendingKeys(out)
    && (forall i :: 0 <= i < |out| ==> bin(out[i].pubkey) < n && Newest(groups, out[i].pubkey) == Some(out[i]))
    && (forall g, i :: 0 <= g < |groups| && 0 <= i < |groups[g]| && bin(groups[g][i].pubkey) < n ==>
          HasKey(out, groups[g][i].pubkey))
  }

  lemma AppendBin<H>(groups: seq<seq<Item<H>>>, bin: Pubkey -> nat, n: nat, a: seq<Item<H>>, b: seq<Item<H>>)
    requires Monotone(bin)
    requires PrefixWinners(groups, bin, n, a) && IsBinWinners(groups, bin, n, b)
    ensures PrefixWinners(groups, bin, n + 1, a + b)
  {
    forall i, j | 0 <= i < |a| && 0 <= j < |b| ensures a[i].pubkey < b[j].pubkey {
      assert bin(a[i].pubkey) < bin(b[j].pubkey);
    }
    forall g, i | 0 <= g < |groups| && 0 <= i < |groups[g]| && bin(groups[g][i].pubkey) < n + 1
      ensures HasKey(a + b, groups[g][i].pubkey)
    {
      var key := groups[g][i].pubkey;
      if bin(key) < n {
        var k :| 0 <= k < |a| && a[k].pubkey == key;
        assert (a + b)[k].pubkey == key;
      } else {
        var k :| 0 <= k < |b| && b[k].pubkey == key;
        assert (a + b)[|a| + k].pubkey == key;
      }
    }
  }

  lemma AllBins<H>(groups: seq<seq<Item<H>>>, bin: Pubkey -> nat, bins: nat, out: seq<Item<H>>)
    requires PrefixWinners(groups, bin, bins, out)
    requires forall key: Pubkey :: bin(key) < bins
    ensures IsWinners(groups, out)
  {
    forall g, i | 0 <= g < |groups| && 0 <= i < |groups[g]| ensures HasKey(out, groups[g][i].pubkey) {
      assert bin(groups[g][i].pubkey) < bins;
    }
  }

  /** accounts_hash.rs `DedupResult`; `None` once the lamports have overflowed. */
  type Accumulator<H> = Option<(seq<seq<H>>, nat)>

  /** The accumulator holds the hashes and lamports of the winners found so far. */
  ghost predicate Accumulated<H>(acc: Accumulator<H>, out: seq<Item<H>>, zero: ZeroLamportAccounts,
                                 pubkeyHash: Pubkey -> H)
  {
    match acc
    case None => SumLamports(out) > U64_MAX
    case Some(a) =>
      && a.1 == SumLamports(out) <= U64_MAX
      && CumulativeOffsets.Flatten(a.0) == Emit(out, zero, pubkeyHash)
  }

  /** Adds one bin with checked arithmetic. */
  function Accumulate<H>(acc: Accumulator<H>, file: Option<(seq<H>, nat)>): (r: Accumulator<H>) {
    if acc.None? || file.None? || acc.value.1 + file.value.1 > U64_MAX then None
    else Some((acc.value.0 + [file.value.0], acc.value.1 + file.value.1))
  }

  lemma AccumulateOne<H>(acc: Accumulator<H>, out: seq<Item<H>>, winners: seq<Item<H>>, file: Option<(seq<H>, nat)>,
                         zero: ZeroLamportAccounts, pubkeyHash: Pubkey -> H)
    requires Accumulated(acc, out, zero, pubkeyHash)
    requires file == Outcome(winners, zero, pubkeyHash)
    ensures Accumulated(Accumulate(acc, file), out + winners, zero, pubkeyHash)
  {
    EmitSplit(out, winners, zero, pubkeyHash);
    if acc.Some? && file.Some? { CumulativeOffsets.FlattenAppend(acc.value.0, file.value.0); }
  }

  /** All workers, in bin order. Flattened, the hashes are those of the winners in pubkey order,
      whatever the number of bins; the result is `None` exactly when the lamports overflow. */
  method DeDupAccounts<H>(groups: seq<seq<Item<H>>>, bin: Pubkey -> nat, bins: nat,
                          zero: ZeroLamportAccounts, pubkeyHash: Pubkey -> H)
    returns (result: Accumulator<H>, ghost out: seq<Item<H>>)
    requires SortedGroups(groups) && Monotone(bin)
    requires forall key: Pubkey :: bin(key) < bins
    ensures IsWinners(groups, out)
    ensures Accumulated(result, out, zero, pubkeyHash)
    ensures result.Some? ==> |result.value.0| == bins
  {
    result := Some(([], 0));
    out := [];
    for b := 0 to bins
      invariant PrefixWinners(groups, bin, b, out)
      invariant Accumulated(result, out, zero, pubkeyHash)
      invariant result.Some? ==> |result.value.0| == b
    {
      var file, capacity;
      ghost var winners;
      file, capacity, winners := DeDupAccountsInParallel(groups, bin, b, bins, zero, pubkeyHash);
      AppendBin(groups, bin, b, out, winners);
      AccumulateOne(result, out, winners, file, zero, pubkeyHash);
      result, out := Accumulate(result, file), out + winners;
    }
    AllBins(groups, bin, bins, out);
  }

  /** The root over the hashes of winners, and their lamports; `None` if these overflow. */
  ghost function HashOf<H>(out: seq<Item<H>>, zero: ZeroLamportAccounts, pubkeyHash: Pubkey -> H,
                           hash: seq<H> -> H): (r: Option<(H, nat)>)
  {
    if SumLamports(out) > U64_MAX then None
    else Some((MerkleTree.Root(hash, Emit(out, zero, pubkeyHash), MerkleHasher.MERKLE_FANOUT), SumLamports(out)))
  }

  /** The accounts hash and the capitalization. */
  method RestOfHashCalculation<H>(groups: seq<seq<Item<H>>>, bin: Pubkey -> nat, bins: nat, zero: ZeroLamportAccounts,
                                  pubkeyHash: Pubkey -> H, hash: seq<H> -> H, defaultHash: H)
    returns (result: Option<(H, nat)>, ghost out: seq<Item<H>>)
    requires SortedGroups(groups) && Monotone(bin)
    requires forall key: Pubkey :: bin(key) < bins
    ensures IsWinners(groups, out) && result == HashOf(out, zero, pubkeyHash, hash)
    ensures result.None? <==> SumLamports(out) > 0xffff_ffff_ffff_ffff
    ensures result.Some? ==> result.value.1 == SumLamports(out)
    ensures exists w :: IsWinners(groups, w) && result == HashOf(w, zero, pubkeyHash, hash)
  {
    var files;
    files, out := DeDupAccounts(groups, bin, bins, zero, pubkeyHash);
    if files.None? { return None, out; }
    var root, count := CumulativeOffsets.CalculateHash(hash, defaultHash, files.value.0);
    result := Some((root, files.value.1));
  }

  /** Two computations with different bins agree on every input. */
  method BinCountDoesNotMatter<H>(groups: seq<seq<Item<H>>>, bin: Pubkey -> nat, bins: nat, bin': Pubkey -> nat,
                                  bins': nat, zero: ZeroLamportAccounts, pubkeyHash: Pubkey -> H,
                                  hash: seq<H> -> H, defaultHash: H)
    returns (a: Option<(H, nat)>, b: Option<(H, nat)>)
    requires SortedGroups(groups) && Monotone(bin) && Monotone(bin')
    requires forall key: Pubkey :: bin(key) < bins && bin'(key) < bins'
    ensures a == b
  {
    ghost var out, out';
    a, out := RestOfHashCalculation(groups, bin, bins, zero, pubkeyHash, hash, defaultHash);
    b, out' := RestOfHashCalculation(groups, bin', bins', zero, pubkeyHash, hash, defaultHash);
    WinnersUnique(groups, out, out');
  }
}
