/**
 * Bulk insertion into the index: of several items with one pubkey only the
 * last is inserted. The list is sorted by pubkey with a stable sort and then
 * compacted in place towards its end.
 */
module DuplicateRemoval {
  import opened Common

  type Item<V> = (Pubkey, V)

  /** The items of one pubkey, in the order of the list. */
  function OfKey<V>(s: seq<Item<V>>, k: Pubkey): (r: seq<Item<V>>) {
    if s == [] then [] else if s[0].0 == k then [s[0]] + OfKey(s[1..], k) else OfKey(s[1..], k)
  }

  lemma {:induction false} OfKeyConcat<V>(a: seq<Item<V>>, b: seq<Item<V>>, k: Pubkey)
    ensures OfKey(a + b, k) == OfKey(a, k) + OfKey(b, k)
  {
    if a == [] {
      assert a + b == b;
    } else {
      OfKeyConcat(a[1..], b, k);
      assert (a + b)[1..] == a[1..] + b && (a + b)[0] == a[0];
      if a[0].0 == k { assert [a[0]] + (OfKey(a[1..], k) + OfKey(b, k)) == ([a[0]] + OfKey(a[1..], k)) + OfKey(b, k); }
    }
  }

  ghost predicate SortedByKey<V>(s: seq<Item<V>>) {
    forall i, j :: 0 <= i < j < |s| ==> s[i].0 <= s[j].0
  }

  ghost predicate StrictlyAscending<V>(s: seq<Item<V>>) {
    forall i, j :: 0 <= i < j < |s| ==> s[i].0 < s[j].0
  }

  // ----- the stable sort -----

  /** Puts an item in front of the first item that is not below it. */
  function InsertStable<V>(x: Item<V>, s: seq<Item<V>>): (r: seq<Item<V>>) {
    if s == [] || x.0 <= s[0].0 then [x] + s else [s[0]] + InsertStable(x, s[1..])
  }

  function StableSort<V>(s: seq<Item<V>>): (r: seq<Item<V>>) {
    if s == [] then [] else InsertStable(s[0], StableSort(s[1..]))
  }

  lemma {:induction false} InsertLow<V>(x: Item<V>, s: seq<Item<V>>, low: Pubkey)
    requires low <= x.0 && forall i :: 0 <= i < |s| ==> low <= s[i].0
    ensures forall i :: 0 <= i < |InsertStable(x, s)| ==> low <= InsertStable(x, s)[i].0
  {
    if s != [] && x.0 > s[0].0 { InsertLow(x, s[1..], low); }
  }

  lemma {:induction false} InsertSorted<V>(x: Item<V>, s: seq<Item<V>>)
    requires SortedByKey(s)
    ensures SortedByKey(InsertStable(x, s))
  {
    if s != [] && x.0 > s[0].0 {
      InsertSorted(x, s[1..]);
      InsertLow(x, s[1..], s[0].0);
    }
  }

  lemma {:induction false} InsertOfKey<V>(x: Item<V>, s: seq<Item<V>>, k: Pubkey)
    ensures OfKey(InsertStable(x, s), k) == OfKey([x] + s, k)
  {
    assert ([x] + s)[1..] == s;
    if s != [] && x.0 > s[0].0 {
      InsertOfKey(x, s[1..], k);
      assert ([x] + s[1..])[1..] == s[1..];
      assert ([s[0]] + InsertStable(x, s[1..]))[1..] == InsertStable(x, s[1..]);
    }
  }

  /** Sorted, and the items of each pubkey are the same ones in the same order. */
  lemma {:induction false} SortIsStable<V>(s: seq<Item<V>>, k: Pubkey)
    ensures SortedByKey(StableSort(s)) && OfKey(StableSort(s), k) == OfKey(s, k)
  {
    if s != [] {
      SortIsStable(s[1..], k);
      InsertSorted(s[0], StableSort(s[1..]));
      InsertOfKey(s[0], StableSort(s[1..]), k);
      assert ([s[0]] + StableSort(s[1..]))[1..] == StableSort(s[1..]);
    }
  }

  lemma {:induction false} SortLength<V>(s: seq<Item<V>>)
    ensures |StableSort(s)| == |s|
  {
    if s != [] {
      SortLength(s[1..]);
      InsertLength(s[0], StableSort(s[1..]));
    }
  }

  lemma {:induction false} InsertLength<V>(x: Item<V>, s: seq<Item<V>>)
    ensures |InsertStable(x, s)| == |s| + 1
  {
    if s != [] && x.0 > s[0].0 { InsertLength(x, s[1..]); }
  }

  // ----- what the pass over the sorted list keeps and drops -----

  /** The last item of each run of equal pubkeys. */
  function Kept<V>(s: seq<Item<V>>): (r: seq<Item<V>>) {
    if |s| <= 1 then s else if s[0].0 == s[1].0 then Kept(s[1..]) else [s[0]] + Kept(s[1..])
  }

  /** The other items, from the end of the list to its start. */
  function Dropped<V>(s: seq<Item<V>>): (r: seq<Item<V>>) {
    if |s| <= 1 then [] else if s[0].0 == s[1].0 then Dropped(s[1..]) + [s[0]] else Dropped(s[1..])
  }

  function AllButLast<V>(s: seq<V>): (r: seq<V>) {
    if s == [] then [] else s[..|s| - 1]
  }

  function LastOnly<V>(s: seq<V>): (r: seq<V>) {
    if s == [] then [] else s[|s| - 1..]
  }

  function Reversed<V>(s: seq<V>): (r: seq<V>) {
    if s == [] then [] else Reversed(s[1..]) + [s[0]]
  }

  lemma {:induction false} NoneAbove<V>(s: seq<Item<V>>, k: Pubkey)
    requires SortedByKey(s) && (s != [] ==> k < s[0].0)
    ensures OfKey(s, k) == []
  {
    if s != [] { NoneAbove(s[1..], k); }
  }

  lemma OfKeyFirst<V>(x: Item<V>, s: seq<Item<V>>, k: Pubkey)
    ensures OfKey([x] + s, k) == if x.0 == k then [x] + OfKey(s, k) else OfKey(s, k)
  {
    assert ([x] + s)[1..] == s;
  }

  lemma LastOfLonger<V>(x: V, s: seq<V>)
    ensures LastOnly([x] + s) == if s == [] then [x] else LastOnly(s)
  {
  }

  /** Of each pubkey the last item is kept. */
  lemma {:induction false} KeptOfKey<V>(s: seq<Item<V>>, k: Pubkey)
    requires SortedByKey(s)
    ensures OfKey(Kept(s), k) == LastOnly(OfKey(s, k))
  {
    if |s| > 1 {
      var x, rest := s[0], s[1..];
      KeptOfKey(rest, k);
      LastOfLonger(x, OfKey(rest, k));
      if x.0 == rest[0].0 {
        assert Kept(s) == Kept(rest);
      } else {
        assert Kept(s) == [x] + Kept(rest);
        OfKeyFirst(x, Kept(rest), k);
        if x.0 == k { NoneAbove(rest, k); }
      }
    } else if |s| == 1 {
      assert s[1..] == [];
    }
  }

  /** The items before the last of their pubkey are dropped. */
  lemma {:induction false} DroppedOfKey<V>(s: seq<Item<V>>, k: Pubkey)
    requires SortedByKey(s)
    ensures OfKey(Dropped(s), k) == Reversed(AllButLast(OfKey(s, k)))
  {
    if |s| > 1 {
      var rest := s[1..];
      DroppedOfKey(rest, k);
      if s[0].0 == rest[0].0 {
        OfKeyConcat(Dropped(rest), [s[0]], k);
        OfKeyFirst(s[0], [], k);
        if s[0].0 == k { assert AllButLast(OfKey(s, k)) == [s[0]] + AllButLast(OfKey(rest, k)); }
      } else if s[0].0 == k {
        NoneAbove(rest, k);
      }
    } else if |s| == 1 {
      assert s[1..] == [];
    }
  }

  lemma {:induction false} KeptAscends<V>(s: seq<Item<V>>)
    requires SortedByKey(s)
    ensures StrictlyAscending(Kept(s))
    ensures s != [] ==> Kept(s) != [] && Kept(s)[0].0 == s[0].0
  {
    if |s| > 1 { KeptAscends(s[1..]); }
  }

  // ----- the method -----

  lemma KeptSame<V>(s: seq<Item<V>>, i: nat)
    requires i + 1 < |s| && s[i].0 == s[i + 1].0
    ensures Kept(s[i..]) == Kept(s[i + 1..]) && Dropped(s[i..]) == Dropped(s[i + 1..]) + [s[i]]
  {
    assert s[i..][1..] == s[i + 1..];
  }

  lemma KeptNext<V>(s: seq<Item<V>>, i: nat)
    requires i + 1 < |s| && s[i].0 != s[i + 1].0
    ensures Kept(s[i..]) == [s[i]] + Kept(s[i + 1..]) && Dropped(s[i..]) == Dropped(s[i + 1..])
  {
    assert s[i..][1..] == s[i + 1..];
  }

  method SortInPlace<V>(a: array<Item<V>>)
    modifies a
    ensures a[..] == StableSort(old(a[..]))
  {
    var s := StableSort(a[..]);
    SortLength(a[..]);
    forall i | 0 <= i < a.Length { a[i] := s[i]; }
    assert a[..] == s;
  }

  function UnlessEmpty<T(==)>(s: seq<T>): (r: Option<seq<T>>) {
    if s == [] then None else Some(s)
  }

  /** Puts the item in front of `curr` in front of `write`. */
  method MoveBack<V>(a: array<Item<V>>, curr: nat, write: nat)
    requires 0 < curr <= write < a.Length
    modifies a
    ensures a[..curr - 1] == old(a[..curr - 1])
    ensures a[write - 1..] == [old(a[curr - 1])] + old(a[write..])
  {
    if curr < write { a[write - 1] := a[curr - 1]; }
  }

  /** The compaction of a sorted list, from its end to its start. */
  method Compact<V>(a: array<Item<V>>) returns (write: nat, duplicates: Option<seq<Item<V>>>)
    requires a.Length >= 2
    modifies a
    ensures write < a.Length && a[write..] == Kept(old(a[..]))
    ensures duplicates == UnlessEmpty(Dropped(old(a[..])))
  {
    ghost var s := a[..];
    duplicates := None;
    var lastKey := a[a.Length - 1].0;
    write := a.Length - 1;
    var curr: nat := write;
    ghost var kept, dropped := a[write..], [];
    while curr > 0
      invariant 0 <= curr <= write < a.Length
      invariant a[..curr] == s[..curr] && lastKey == s[curr].0
      invariant a[write..] == kept == Kept(s[curr..])
      invariant dropped == Dropped(s[curr..]) && duplicates == UnlessEmpty(dropped)
    {
      var currItem := a[curr - 1];
      assert currItem == a[..curr][curr - 1] == s[curr - 1];
      assert a[..curr - 1] == s[..curr - 1] by { assert a[..curr - 1] == a[..curr][..curr - 1]; }
      if currItem.0 == lastKey {
        KeptSame(s, curr - 1);
        dropped := dropped + [currItem];
        duplicates := Some((if duplicates.Some? then duplicates.value else []) + [currItem]);
      } else {
        KeptNext(s, curr - 1);
        MoveBack(a, curr, write);
        kept := [currItem] + kept;
        write := write - 1;
        lastKey := currItem.0;
      }
      curr := curr - 1;
    }
    assert s[0..] == s;
  }

  /** What a caller gets: one item per pubkey, the last; and the others. */
  ghost predicate LastOfEach<V>(all: seq<Item<V>>, kept: seq<Item<V>>, dropped: seq<Item<V>>) {
    forall k: Pubkey ::
      && OfKey(kept, k) == LastOnly(OfKey(all, k))
      && OfKey(dropped, k) == Reversed(AllButLast(OfKey(all, k)))
  }

  ghost predicate NoRepeats<V>(s: seq<Item<V>>) {
    forall k: Pubkey :: |OfKey(s, k)| <= 1
  }

  /** Nothing is dropped exactly when the pubkeys are all different. */
  lemma DroppedNothing<V>(all: seq<Item<V>>, kept: seq<Item<V>>, dropped: seq<Item<V>>)
    requires LastOfEach(all, kept, dropped)
    ensures dropped == [] <==> NoRepeats(all)
  {
    if dropped == [] {
      forall k: Pubkey ensures |OfKey(all, k)| <= 1 {
        assert OfKey(dropped, k) == [];
      }
    } else {
      var k: Pubkey := dropped[0].0;
      assert OfKey(dropped, k) != [];
      assert |OfKey(all, k)| > 1;
    }
  }

  lemma {:induction false} CountInKey<V>(s: seq<Item<V>>, x: Item<V>)
    ensures multiset(s)[x] == multiset(OfKey(s, x.0))[x]
  {
    if s != [] {
      CountInKey(s[1..], x);
      assert s == [s[0]] + s[1..];
    }
  }

  lemma {:induction false} ReversedElements<V>(s: seq<V>)
    ensures multiset(Reversed(s)) == multiset(s)
  {
    if s != [] {
      ReversedElements(s[1..]);
      assert s == [s[0]] + s[1..];
    }
  }

  lemma {:induction false} ReversedAt<V>(s: seq<V>, i: nat)
    requires i < |s|
    ensures |Reversed(s)| == |s| && Reversed(s)[i] == s[|s| - 1 - i]
  {
    if |s| > 1 { ReversedAt(s[1..], if i < |s| - 1 then i else 0); }
  }

  lemma SplitElements<V>(s: seq<V>)
    ensures multiset(LastOnly(s)) + multiset(Reversed(AllButLast(s))) == multiset(s)
  {
    ReversedElements(AllButLast(s));
    assert s == AllButLast(s) + LastOnly(s);
  }

  /** Kept and dropped together are the items that were given. */
  lemma NothingLost<V>(all: seq<Item<V>>, kept: seq<Item<V>>, dropped: seq<Item<V>>)
    requires LastOfEach(all, kept, dropped)
    ensures multiset(kept) + multiset(dropped) == multiset(all)
  {
    forall x: Item<V> ensures multiset(kept)[x] + multiset(dropped)[x] == multiset(all)[x] {
      CountInKey(kept, x);
      CountInKey(dropped, x);
      CountInKey(all, x);
      SplitElements(OfKey(all, x.0));
    }
  }

  lemma {:induction false} OfKeyMembers<V>(s: seq<Item<V>>, k: Pubkey, x: Item<V>)
    ensures x in OfKey(s, k) <==> x in s && x.0 == k
  {
    if s != [] {
      OfKeyMembers(s[1..], k, x);
      assert s == [s[0]] + s[1..];
    }
  }

  /** An item behind which its pubkey does not come again is the one that is kept of this pubkey. */
  lemma LastIsKept<V>(all: seq<Item<V>>, kept: seq<Item<V>>, dropped: seq<Item<V>>, i: nat)
    requires LastOfEach(all, kept, dropped) && i < |all|
    requires forall j :: i < j < |all| ==> all[j].0 != all[i].0
    ensures all[i] in kept && forall y :: y in kept && y.0 == all[i].0 ==> y == all[i]
  {
    var x, rest := all[i], all[i + 1..];
    assert all == all[..i] + ([x] + rest);
    OfKeyConcat(all[..i], [x] + rest, x.0);
    OfKeyFirst(x, rest, x.0);
    if OfKey(rest, x.0) != [] {
      var y := OfKey(rest, x.0)[0];
      OfKeyMembers(rest, x.0, y);
      assert false;
    }
    assert OfKey(kept, x.0) == [x];
    forall y ensures y in kept && y.0 == x.0 <==> y == x { OfKeyMembers(kept, x.0, y); }
  }

  method RemoveOlderDuplicatePubkeys<V>(a: array<Item<V>>)
    returns (items: seq<Item<V>>, duplicates: Option<seq<Item<V>>>)
    modifies a
    ensures StrictlyAscending(items)
    ensures LastOfEach(old(a[..]), items, if duplicates.Some? then duplicates.value else [])
    ensures duplicates.None? <==> NoRepeats(old(a[..]))
  {
    ghost var all := a[..];
    if a.Length < 2 {
      items, duplicates := a[..], None;
      ShortList(all);
      return;
    }
    SortInPlace(a);
    ghost var sorted := a[..];
    var write;
    write, duplicates := Compact(a);
    items := a[write..];
    forall k: Pubkey ensures OfKey(items, k) == LastOnly(OfKey(all, k)) &&
                             OfKey(Dropped(sorted), k) == Reversed(AllButLast(OfKey(all, k)))
    {
      SortIsStable(all, k);
      KeptOfKey(sorted, k);
      DroppedOfKey(sorted, k);
    }
    SortIsStable(all, 0);
    KeptAscends(sorted);
    DroppedNothing(all, items, Dropped(sorted));
  }

  lemma ShortList<V>(s: seq<Item<V>>)
    requires |s| < 2
    ensures LastOfEach(s, s, []) && NoRepeats(s)
  {
    if s != [] {
      assert s[1..] == [];
      forall k: Pubkey ensures OfKey(s, k) == LastOnly(OfKey(s, k)) &&
                               OfKey([], k) == Reversed(AllButLast(OfKey(s, k)))
      {
        assert OfKey(s, k) == (if s[0].0 == k then [s[0]] else []);
      }
    }
  }
}
