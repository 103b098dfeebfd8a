/** Accounts found by scanning storages: slot groups, oldest first, each sorted by pubkey. */
module SlotGroups {
  import opened Common
  import opened Ascending

  /** accounts_hash.rs `CalculateHashIntermediate`. */
  datatype Item<H> = Item(pubkey: Pubkey, lamports: nat, hash: H)

  ghost predicate SortedGroup<H>(group: seq<Item<H>>) {
    forall i, j :: 0 <= i < j < |group| ==> group[i].pubkey <= group[j].pubkey
  }

  ghost predicate SortedGroups<H>(groups: seq<seq<Item<H>>>) {
    forall g :: 0 <= g < |groups| ==> SortedGroup(groups[g])
  }

  // ----- the reference: the newest version of an account -----

  /** The last entry of `key` in one group. */
  function LastOf<H>(group: seq<Item<H>>, key: Pubkey): (r: Option<Item<H>>)
    ensures r.Some? ==> r.value in group && r.value.pubkey == key
    ensures r.None? ==> forall i :: 0 <= i < |group| ==> group[i].pubkey != key
  {
    if group == [] then None
    else
      var n := |group| - 1;
      if group[n].pubkey == key then Some(group[n]) else LastOf(group[..n], key)
  }

  /** The last entry of `key` in the highest group that has one. */
  function Newest<H>(groups: seq<seq<Item<H>>>, key: Pubkey): (r: Option<Item<H>>)
    ensures r.Some? ==> r.value.pubkey == key
  {
    if groups == [] then None
    else
      var n := |groups| - 1;
      var last := LastOf(groups[n], key);
      if last.Some? then last else Newest(groups[..n], key)
  }

  lemma {:induction false} LastOfIs<H>(group: seq<Item<H>>, i: nat)
    requires i < |group|
    requires forall j :: i < j < |group| ==> group[j].pubkey != group[i].pubkey
    ensures LastOf(group, group[i].pubkey) == Some(group[i])
    decreases |group|
  {
    if i < |group| - 1 { LastOfIs(group[..|group| - 1], i); }
  }

  lemma {:induction false} LastOfNone<H>(group: seq<Item<H>>, key: Pubkey)
    requires forall j :: 0 <= j < |group| ==> group[j].pubkey != key
    ensures LastOf(group, key) == None
    decreases |group|
  {
    if group != [] { LastOfNone(group[..|group| - 1], key); }
  }

  lemma {:induction false} NewestIs<H>(groups: seq<seq<Item<H>>>, g: nat, i: nat)
    requires g < |groups| && i < |groups[g]|
    requires forall j :: i < j < |groups[g]| ==> groups[g][j].pubkey != groups[g][i].pubkey
    requires forall h, j :: g < h < |groups| && 0 <= j < |groups[h]| ==> groups[h][j].pubkey != groups[g][i].pubkey
    ensures Newest(groups, groups[g][i].pubkey) == Some(groups[g][i])
    decreases |groups|
  {
    var n := |groups| - 1;
    if g == n {
      LastOfIs(groups[n], i);
    } else {
      LastOfNone(groups[n], groups[g][i].pubkey);
      NewestIs(groups[..n], g, i);
    }
  }

  // ----- the list of winners -----

  ghost predicate AscendingKeys<H>(s: seq<Item<H>>) {
    forall i, j :: 0 <= i < j < |s| ==> s[i].pubkey < s[j].pubkey
  }

  ghost predicate HasKey<H>(s: seq<Item<H>>, key: Pubkey) {
    exists i :: 0 <= i < |s| && s[i].pubkey == key
  }

  /** The newest version of every account, in pubkey order. */
  ghost predicate IsWinners<H>(groups: seq<seq<Item<H>>>, out: seq<Item<H>>) {
    && AscendingKeys(out)
    && (forall i :: 0 <= i < |out| ==> Newest(groups, out[i].pubkey) == Some(out[i]))
    && (forall g, i :: 0 <= g < |groups| && 0 <= i < |groups[g]| ==> HasKey(out, groups[g][i].pubkey))
  }

  /** The newest version of every account whose pubkey is in one bin, in pubkey order. */
  ghost predicate IsBinWinners<H>(groups: seq<seq<Item<H>>>, bin: Pubkey -> nat, b: nat, out: seq<Item<H>>) {
    && AscendingKeys(out)
    && (forall i :: 0 <= i < |out| ==> bin(out[i].pubkey) == b && Newest(groups, out[i].pubkey) == Some(out[i]))
    && (forall g, i :: 0 <= g < |groups| && 0 <= i < |groups[g]| && bin(groups[g][i].pubkey) == b ==>
          HasKey(out, groups[g][i].pubkey))
  }

  lemma {:induction false} NewestInGroups<H>(groups: seq<seq<Item<H>>>, key: Pubkey) returns (g: nat, i: nat)
    requires Newest(groups, key).Some?
    ensures g < |groups| && i < |groups[g]| && groups[g][i] == Newest(groups, key).value
    decreases |groups|
  {
    var n := |groups| - 1;
    if LastOf(groups[n], key).Some? {
      g := n;
      i :| 0 <= i < |groups[n]| && groups[n][i] == LastOf(groups[n], key).value;
    } else {
      g, i := NewestInGroups(groups[..n], key);
    }
  }

  function Keys<H>(s: seq<Item<H>>): (r: seq<int>)
    ensures |r| == |s| && forall i :: 0 <= i < |s| ==> r[i] == s[i].pubkey
  {
    seq(|s|, i requires 0 <= i < |s| => s[i].pubkey)
  }

  lemma WinnerKeys<H>(groups: seq<seq<Item<H>>>, a: seq<Item<H>>, b: seq<Item<H>>, key: int)
    requires IsWinners(groups, a) && IsWinners(groups, b)
    ensures key in Keys(a) ==> key in Keys(b)
  {
    if key in Keys(a) {
      var i :| 0 <= i < |a| && Keys(a)[i] == key;
      var g, j := NewestInGroups(groups, a[i].pubkey);
      assert HasKey(b, groups[g][j].pubkey);
      var k :| 0 <= k < |b| && b[k].pubkey == key;
      assert Keys(b)[k] == key;
    }
  }

  /** There is only one list of winners: the hash does not depend on how it was found. */
  lemma WinnersUnique<H>(groups: seq<seq<Item<H>>>, a: seq<Item<H>>, b: seq<Item<H>>)
    requires IsWinners(groups, a) && IsWinners(groups, b)
    ensures a == b
  {
    forall key ensures key in Keys(a) <==> key in Keys(b) {
      WinnerKeys(groups, a, b, key);
      WinnerKeys(groups, b, a, key);
    }
    AscendingUnique(Keys(a), Keys(b));
    forall i | 0 <= i < |a| ensures a[i] == b[i] {
      assert Keys(a)[i] == Keys(b)[i];
    }
  }

  // ----- what is reported for the winners -----

  datatype ZeroLamportAccounts = Excluded | Included

  /** The hash of one winner: zero-lamport accounts are left out, or stand for their pubkey. */
  function EmitOne<H>(item: Item<H>, zero: ZeroLamportAccounts, pubkeyHash: Pubkey -> H): (r: seq<H>)
  {
    if item.lamports != 0 then [item.hash]
    else if zero.Included? then [pubkeyHash(item.pubkey)]
    else []
  }

  function Emit<H>(out: seq<Item<H>>, zero: ZeroLamportAccounts, pubkeyHash: Pubkey -> H): (r: seq<H>)
  {
    if out == [] then []
    else Emit(out[..|out| - 1], zero, pubkeyHash) + EmitOne(out[|out| - 1], zero, pubkeyHash)
  }

  function SumLamports<H>(out: seq<Item<H>>): (r: nat)
  {
    if out == [] then 0 else SumLamports(out[..|out| - 1]) + out[|out| - 1].lamports
  }

  lemma {:induction false} EmitSplit<H>(a: seq<Item<H>>, b: seq<Item<H>>, zero: ZeroLamportAccounts,
                                        pubkeyHash: Pubkey -> H)
    ensures Emit(a + b, zero, pubkeyHash) == Emit(a, zero, pubkeyHash) + Emit(b, zero, pubkeyHash)
    ensures SumLamports(a + b) == SumLamports(a) + SumLamports(b)
    decreases |b|
  {
    if b == [] {
      assert a + b == a;
    } else {
      assert (a + b)[..|a + b| - 1] == a + b[..|b| - 1];
      EmitSplit(a, b[..|b| - 1], zero, pubkeyHash);
    }
  }

  lemma EmitAppend<H>(out: seq<Item<H>>, item: Item<H>, zero: ZeroLamportAccounts, pubkeyHash: Pubkey -> H)
    ensures Emit(out + [item], zero, pubkeyHash) == Emit(out, zero, pubkeyHash) + EmitOne(item, zero, pubkeyHash)
    ensures SumLamports(out + [item]) == SumLamports(out) + item.lamports
  {
    assert (out + [item])[..|out|] == out;
  }

  /** With zero-lamport accounts included there is one hash per winner, in order: its own, or that of its pubkey. */
  lemma {:induction false} EmitIncluded<H>(out: seq<Item<H>>, pubkeyHash: Pubkey -> H)
    ensures |Emit(out, Included, pubkeyHash)| == |out|
    ensures forall i :: 0 <= i < |out| ==>
              Emit(out, Included, pubkeyHash)[i] ==
                if out[i].lamports != 0 then out[i].hash else pubkeyHash(out[i].pubkey)
    decreases |out|
  {
    if out != [] { EmitIncluded(out[..|out| - 1], pubkeyHash); }
  }

  lemma {:induction false} EmitPositions<H>(out: seq<Item<H>>, pubkeyHash: Pubkey -> H, n: nat, p: nat -> bool)
    requires n <= |out| && forall i :: 0 <= i < n ==> (p(i) <==> out[i].lamports != 0)
    ensures var hashes := Emit(out[..n], Excluded, pubkeyHash);
            && |hashes| == |Positions(n, p)|
            && forall j :: 0 <= j < |hashes| ==> Positions(n, p)[j] < n && hashes[j] == out[Positions(n, p)[j]].hash
  {
    if n > 0 {
      EmitPositions(out, pubkeyHash, n - 1, p);
      assert out[..n][..n - 1] == out[..n - 1];
    }
  }

  /** With them excluded the hashes are those of exactly the winners with lamports, in order. */
  lemma EmitExcluded<H>(out: seq<Item<H>>, pubkeyHash: Pubkey -> H) returns (pos: seq<nat>)
    ensures IsAscending(pos)
    ensures forall i: nat :: i in pos <==> i < |out| && out[i].lamports != 0
    ensures |Emit(out, Excluded, pubkeyHash)| == |pos|
    ensures forall j :: 0 <= j < |pos| ==>
              pos[j] < |out| && Emit(out, Excluded, pubkeyHash)[j] == out[pos[j]].hash
  {
    var p := (i: nat) => i < |out| && out[i].lamports != 0;
    pos := Positions(|out|, p);
    PositionsAre(|out|, p);
    EmitPositions(out, pubkeyHash, |out|, p);
    assert out[..|out|] == out;
  }

  /** The sum is that of the single lamports. */
  lemma SumOfOne<H>(item: Item<H>)
    ensures SumLamports([item]) == item.lamports
  {
    assert [item][..0] == [];
  }

  lemma {:induction false} EmitAtMostOneEach<H>(out: seq<Item<H>>, zero: ZeroLamportAccounts, pubkeyHash: Pubkey -> H)
    ensures |Emit(out, zero, pubkeyHash)| <= |out|
    decreases |out|
  {
    if out != [] { EmitAtMostOneEach(out[..|out| - 1], zero, pubkeyHash); }
  }
}
